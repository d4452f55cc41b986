/** Inlining of custom LaTeX commands: a cursor-advancing parser for
    braces, brackets, command names and `\def` parameter text; discovery of
    `\newcommand`, `\DeclareRobustCommand` and `\def` definitions; removal of
    those definitions; substitution of every usage by its definition with
    `#1`, `#2`, ... replaced by the usage's arguments; and the bounded
    fixpoint that repeats the substitution for nested commands. */
module LatexInlineCommand {
  import opened Wrappers
  import opened Text

  const NewCommand: string := "\\newcommand"
  const DeclareRobustCommand: string := "\\DeclareRobustCommand"
  const Def: string := "\\def"

  /** The definition keywords, in the order they are searched. */
  const SupportedCommandDefs: seq<string> := [NewCommand, DeclareRobustCommand, Def]

  /** A parsed definition: the command's name (with its backslash), its
      number of arguments, its body, and the default of an optional first
      argument. */
  datatype Command = Command(name: string, nargs: int, definition: string, optionalDefault: Option<string>)

  /** What a parse method returns, and where it leaves the cursor. */
  datatype Parsed = Parsed(value: Option<string>, pos: nat)

  // ---------------------------------------------------------------------
  // The parser's specification, on (content, position)
  // ---------------------------------------------------------------------

  /** The first position at or after `p` that is not white space. */
  function SpaceEnd(s: string, p: nat): (r: nat)
    requires p <= |s|
    ensures p <= r <= |s|
    decreases |s| - p
  {
    if p < |s| && IsSpace(s[p]) then SpaceEnd(s, p + 1) else p
  }

  lemma {:induction false} SpaceEndMeaning(s: string, p: nat)
    requires p <= |s|
    ensures forall k :: p <= k < SpaceEnd(s, p) ==> IsSpace(s[k])
    ensures SpaceEnd(s, p) < |s| ==> !IsSpace(s[SpaceEnd(s, p)])
    decreases |s| - p
  {
    if p < |s| && IsSpace(s[p]) {
      SpaceEndMeaning(s, p + 1);
    }
  }

  /** The brace `s[k]` counts: +1 for an opening brace and -1 for a closing
      one, unless the character before it is a backslash. */
  function BraceDelta(s: string, k: nat): int
    requires 1 <= k < |s|
  {
    if s[k] == '{' && s[k - 1] != '\\' then 1
    else if s[k] == '}' && s[k - 1] != '\\' then -1
    else 0
  }

  /** The net nesting of the counted braces in `s[a..b]`. */
  function Depth(s: string, a: nat, b: nat): int
    requires 1 <= a && b <= |s|
    decreases b
  {
    if b <= a then 0 else Depth(s, a, b - 1) + BraceDelta(s, b - 1)
  }

  /** After the opening brace just before `a`, the nesting stays above zero
      through `s[a..b]`. */
  predicate StaysOpen(s: string, a: nat, b: nat)
    requires 1 <= a && b <= |s|
  {
    forall e :: a < e <= b ==> 1 + Depth(s, a, e) > 0
  }

  /** The scan for the closing brace, from `j` at nesting `level`: the
      index where the nesting drops to zero. */
  function CloseFrom(s: string, j: nat, level: int): (r: Option<nat>)
    requires 1 <= j <= |s|
    ensures r.Some? ==> j <= r.value < |s|
    decreases |s| - j
  {
    if j >= |s| then None
    else
      var l := level + BraceDelta(s, j);
      if l == 0 then Some(j) else CloseFrom(s, j + 1, l)
  }

  /** `parse_braces`: skip white space, demand `{`, and return what lies
      before the brace that balances it, the cursor moving past that brace. */
  function BracesAt(s: string, pos: nat): (r: Parsed)
    requires pos <= |s|
    ensures pos <= r.pos <= |s|
  {
    var p := SpaceEnd(s, pos);
    if p >= |s| || s[p] != '{' then Parsed(None, p)
    else match CloseFrom(s, p + 1, 1)
      case None => Parsed(None, p)
      case Some(j) => Parsed(Some(s[p + 1..j]), j + 1)
  }

  /** `parse_brackets`: skip white space, demand `[`, and return what lies
      before the first `]`, with no nesting. */
  function BracketsAt(s: string, pos: nat): (r: Parsed)
    requires pos <= |s|
    ensures pos <= r.pos <= |s|
  {
    var p := SpaceEnd(s, pos);
    if p >= |s| || s[p] != '[' then Parsed(None, p)
    else
      var e := Find(s, "]", p);
      if e == -1 then Parsed(None, p) else Parsed(Some(s[p + 1..e]), e + 1)
  }

  /** The end of the run of letters starting at `p`. */
  function AlphaEnd(s: string, p: nat): (r: nat)
    requires p <= |s|
    ensures p <= r <= |s|
    ensures forall k :: p <= k < r ==> IsAlpha(s[k])
    ensures r < |s| ==> !IsAlpha(s[r])
    decreases |s| - p
  {
    if p < |s| && IsAlpha(s[p]) then AlphaEnd(s, p + 1) else p
  }

  /** `parse_command_name`: skip white space, demand a backslash, then take
      a run of letters, or one character other than a space, or nothing
      when a space follows. A backslash at the very end fails, with the
      cursor already past it. */
  function CommandNameAt(s: string, pos: nat): (r: Parsed)
    requires pos <= |s|
    ensures pos <= r.pos <= |s|
  {
    var p := SpaceEnd(s, pos);
    if p >= |s| || s[p] != '\\' then Parsed(None, p)
    else if p + 1 >= |s| then Parsed(None, p + 1)
    else
      var q := if IsAlpha(s[p + 1]) then AlphaEnd(s, p + 1)
               else if s[p + 1] != ' ' then p + 2
               else p + 1;
      Parsed(Some(s[p..q]), q)
  }

  /** The scan for the brace that opens a `\def` body: a backslash skips the
      character after it. */
  function ParamScan(s: string, q: nat): (r: nat)
    requires q <= |s|
    ensures q <= r <= |s|
    decreases |s| - q
  {
    if q >= |s| || s[q] == '{' then q
    else if s[q] == '\\' && q + 1 < |s| then ParamScan(s, q + 2)
    else ParamScan(s, q + 1)
  }

  /** `parse_parameter_text`: skip white space and return the text before
      the brace that opens the body, leaving the cursor on that brace. */
  function ParameterTextAt(s: string, pos: nat): (r: Parsed)
    requires pos <= |s|
    ensures pos <= r.pos <= |s|
  {
    var p := SpaceEnd(s, pos);
    var b := ParamScan(s, p);
    if b >= |s| then Parsed(None, b) else Parsed(Some(s[p..b]), b)
  }

  // ---------------------------------------------------------------------
  // What the parse functions mean
  // ---------------------------------------------------------------------

  lemma {:induction false} CloseFromMeaning(s: string, a: nat, j: nat)
    requires 1 <= a <= j <= |s|
    requires StaysOpen(s, a, j)
    ensures var c := CloseFrom(s, j, 1 + Depth(s, a, j));
      && (c.Some? ==> 1 + Depth(s, a, c.value + 1) == 0 && StaysOpen(s, a, c.value))
      && (c.None? ==> StaysOpen(s, a, |s|))
    decreases |s| - j
  {
    if j < |s| {
      assert Depth(s, a, j + 1) == Depth(s, a, j) + BraceDelta(s, j);
      assert 1 + Depth(s, a, j) > 0 by {
        if j == a { assert Depth(s, a, j) == 0; }
      }
      if 1 + Depth(s, a, j + 1) != 0 {
        CloseFromMeaning(s, a, j + 1);
      }
    }
  }

  /** A brace group parses exactly when an opening brace (after white space)
      is balanced later: the group is the text strictly between the two
      braces, its nesting never drops to zero before the end, and the
      cursor lands just after the closing brace. */
  lemma {:induction false} BracesMeaning(s: string, pos: nat)
    requires pos <= |s|
    ensures var r, p := BracesAt(s, pos), SpaceEnd(s, pos);
      && (r.value.Some? ==>
            s[p] == '{' && r.pos == p + |r.value.value| + 2 && s[p + 1..r.pos - 1] == r.value.value
            && 1 + Depth(s, p + 1, r.pos) == 0
            && StaysOpen(s, p + 1, r.pos - 1))
      && (r.value.None? ==>
            r.pos == p && (p == |s| || s[p] != '{' || StaysOpen(s, p + 1, |s|)))
  {
    var p := SpaceEnd(s, pos);
    if p < |s| && s[p] == '{' {
      CloseFromMeaning(s, p + 1, p + 1);
    }
  }

  /** A bracket group is the text up to the first `]`. */
  lemma {:induction false} BracketsMeaning(s: string, pos: nat)
    requires pos <= |s|
    ensures var r, p := BracketsAt(s, pos), SpaceEnd(s, pos);
      && (r.value.Some? ==>
            s[p] == '[' && r.pos == p + |r.value.value| + 2 && s[r.pos - 1] == ']'
            && s[p + 1..r.pos - 1] == r.value.value && ']' !in r.value.value)
      && (r.value.None? ==>
            r.pos == p && (p == |s| || s[p] != '[' || ']' !in s[p..]))
  {
    var p := SpaceEnd(s, pos);
    if p < |s| && s[p] == '[' {
      var e := Find(s, "]", p);
      forall k | p <= k < |s| && (e == -1 || k < e) ensures s[k] != ']' {
        OccursChar(s, "]", k);
      }
      if e != -1 {
        OccursChar(s, "]", e);
        var r := s[p + 1..e];
        assert forall k :: 0 <= k < |r| ==> r[k] == s[p + 1 + k];
      } else {
        assert forall k :: 0 <= k < |s[p..]| ==> s[p..][k] == s[p + k];
      }
    }
  }

  /** A command name is a backslash followed by a maximal run of letters,
      or by one character that is neither a letter nor a space, or by
      nothing when a space follows the backslash. */
  lemma {:induction false} CommandNameMeaning(s: string, pos: nat)
    requires pos <= |s|
    ensures var r, p := CommandNameAt(s, pos), SpaceEnd(s, pos);
      && (r.value.Some? ==>
            var n := r.value.value;
            p < r.pos && n == s[p..r.pos] && n[0] == '\\'
            && ((|n| >= 2 && (forall k :: 1 <= k < |n| ==> IsAlpha(n[k])) && (r.pos == |s| || !IsAlpha(s[r.pos])))
                || (|n| == 2 && !IsAlpha(n[1]) && n[1] != ' ')
                || (|n| == 1 && s[r.pos] == ' ')))
      && (r.value.None? ==> p == |s| || s[p] != '\\' || p + 1 == |s|)
  {
    var p := SpaceEnd(s, pos);
    if p + 1 < |s| && s[p] == '\\' {
      var q := CommandNameAt(s, pos).pos;
      var n := s[p..q];
      assert forall k :: 0 <= k < |n| ==> n[k] == s[p + k];
    }
  }

  /** Every opening brace the parameter scan passes over is escaped by the
      backslash just before it. */
  lemma {:induction false} ParamScanMeaning(s: string, q: nat)
    requires q <= |s|
    ensures ParamScan(s, q) < |s| ==> s[ParamScan(s, q)] == '{'
    ensures forall k :: q <= k < ParamScan(s, q) && s[k] == '{' ==> q < k && s[k - 1] == '\\'
    decreases |s| - q
  {
    if q < |s| && s[q] != '{' {
      if s[q] == '\\' && q + 1 < |s| {
        ParamScanMeaning(s, q + 2);
      } else {
        ParamScanMeaning(s, q + 1);
      }
    }
  }

  /** The parameter text ends at the brace that opens the body; every
      brace before it is escaped. Without such a brace the parse fails at
      the end of the content. */
  lemma {:induction false} ParameterTextMeaning(s: string, pos: nat)
    requires pos <= |s|
    ensures var r, p := ParameterTextAt(s, pos), SpaceEnd(s, pos);
      && (forall k :: p <= k < r.pos && s[k] == '{' ==> p < k && s[k - 1] == '\\')
      && (r.value.Some? ==> r.pos < |s| && s[r.pos] == '{' && r.value.value == s[p..r.pos])
      && (r.value.None? ==> r.pos == |s|)
  {
    ParamScanMeaning(s, SpaceEnd(s, pos));
  }

  // ---------------------------------------------------------------------
  // The parser object
  // ---------------------------------------------------------------------

  /** A cursor over `content`; every parse method moves `pos`. */
  class LatexParser {
    const content: string
    var pos: nat

    predicate Valid()
      reads this
    {
      pos <= |content|
    }

    constructor(content: string, startPos: nat)
      requires startPos <= |content|
      ensures this.content == content && pos == startPos && Valid()
    {
      this.content := content;
      pos := startPos;
    }

    method SkipSpace()
      requires Valid()
      modifies this
      ensures Valid() && pos == SpaceEnd(content, old(pos))
    {
      while pos < |content| && IsSpace(content[pos])
        invariant pos <= |content|
        invariant SpaceEnd(content, pos) == SpaceEnd(content, old(pos))
        decreases |content| - pos
      {
        pos := pos + 1;
      }
    }

    method ParseBraces() returns (result: Option<string>)
      requires Valid()
      modifies this
      ensures Valid() && Parsed(result, pos) == BracesAt(content, old(pos))
    {
      SkipSpace();
      if pos >= |content| || content[pos] != '{' {
        return None;
      }
      var level := 1;
      var startBrace := pos + 1;
      var j := startBrace;
      while j < |content|
        invariant startBrace <= j <= |content|
        invariant level != 0
        invariant CloseFrom(content, j, level) == CloseFrom(content, startBrace, 1)
        decreases |content| - j
      {
        if content[j] == '{' && content[j - 1] != '\\' {
          level := level + 1;
        } else if content[j] == '}' && content[j - 1] != '\\' {
          level := level - 1;
        }
        if level == 0 {
          result := Some(content[startBrace..j]);
          pos := j + 1;
          return;
        }
        j := j + 1;
      }
      return None;
    }

    method ParseBrackets() returns (result: Option<string>)
      requires Valid()
      modifies this
      ensures Valid() && Parsed(result, pos) == BracketsAt(content, old(pos))
    {
      SkipSpace();
      if pos >= |content| || content[pos] != '[' {
        return None;
      }
      var endBracket := Find(content, "]", pos);
      if endBracket == -1 {
        return None;
      }
      result := Some(content[pos + 1..endBracket]);
      pos := endBracket + 1;
    }

    method ParseCommandName() returns (result: Option<string>)
      requires Valid()
      modifies this
      ensures Valid() && Parsed(result, pos) == CommandNameAt(content, old(pos))
    {
      SkipSpace();
      if pos >= |content| || content[pos] != '\\' {
        return None;
      }
      var startCmd := pos;
      pos := pos + 1;
      if pos >= |content| {
        return None;
      }
      if IsAlpha(content[pos]) {
        while pos < |content| && IsAlpha(content[pos])
          invariant startCmd < pos <= |content|
          invariant AlphaEnd(content, pos) == AlphaEnd(content, startCmd + 1)
          decreases |content| - pos
        {
          pos := pos + 1;
        }
      } else if content[pos] != ' ' {
        pos := pos + 1;
      }
      result := Some(content[startCmd..pos]);
    }

    method ParseParameterText() returns (result: Option<string>)
      requires Valid()
      modifies this
      ensures Valid() && Parsed(result, pos) == ParameterTextAt(content, old(pos))
    {
      SkipSpace();
      var bracePos := -1;
      var paramStart := pos;
      while pos < |content|
        invariant paramStart <= pos <= |content|
        invariant ParamScan(content, pos) == ParamScan(content, paramStart)
        decreases |content| - pos
      {
        var ch := content[pos];
        if ch == '{' {
          bracePos := pos;
          break;
        } else if ch == '\\' && pos + 1 < |content| {
          pos := pos + 1;
        }
        pos := pos + 1;
      }
      if bracePos == -1 {
        return None;
      }
      result := Some(content[paramStart..bracePos]);
    }
  }

  // ---------------------------------------------------------------------
  // Argument counts
  // ---------------------------------------------------------------------

  /** Python `int(t)`: surrounding white space ignored, an optional sign,
      then one or more decimal digits; anything else raises `ValueError`,
      here `None`. */
  function ParseInt(t: string): Option<int>
  {
    IntLiteral(Strip(t))
  }

  /** The argument count of a `\newcommand`: the bracketed number, or 0
      when it is missing or not a number. */
  function CountOf(count: Option<string>): int
  {
    if count.None? then 0
    else match ParseInt(count.value)
      case Some(v) => v
      case None => 0
  }

  /** A signed or unsigned run of decimal digits. */
  function IntLiteral(u: string): Option<int>
  {
    if u != [] && (u[0] == '-' || u[0] == '+') then
      var d := u[1..];
      if d != [] && AllDigits(d) then Some(if u[0] == '-' then -(DigitsValue(d) as int) else DigitsValue(d)) else None
    else if u != [] && AllDigits(u) then Some(DigitsValue(u))
    else None
  }

  /** A string that neither starts nor ends with white space is its own
      `strip()`. */
  lemma {:induction false} StripUnpadded(t: string)
    requires t != [] && !IsSpace(t[0]) && !IsSpace(t[|t| - 1])
    ensures Strip(t) == t
  {
    assert StripLeft(t) == t;
  }

  lemma {:induction false} UnsignedLiteral(d: string)
    requires d != [] && AllDigits(d)
    ensures IntLiteral(d) == Some(DigitsValue(d))
  {
    assert IsDigit(d[0]);
  }

  lemma {:induction false} NegativeLiteral(d: string)
    requires d != [] && AllDigits(d)
    ensures IntLiteral("-" + d) == Some(-(DigitsValue(d) as int))
  {
    var m := "-" + d;
    assert m[0] == '-' && m[1..] == d;
  }

  /** Reading back a formatted count gives the count. */
  lemma {:induction false} ParseIntOfNat(n: nat)
    ensures ParseInt(NatToString(n)) == Some(n)
  {
    var t := NatToString(n);
    assert IsDigit(t[0]) && IsDigit(t[|t| - 1]);
    StripUnpadded(t);
    UnsignedLiteral(t);
    NatToStringValue(n);
  }

  /** A formatted count after a minus sign reads back as its negation. */
  lemma {:induction false} ParseIntOfNegated(n: nat)
    ensures ParseInt("-" + NatToString(n)) == Some(-(n as int))
  {
    var t := NatToString(n);
    var m := "-" + t;
    assert IsDigit(t[|t| - 1]);
    assert m[|m| - 1] == t[|t| - 1];
    StripUnpadded(m);
    NegativeLiteral(t);
    NatToStringValue(n);
    assert ParseInt(m) == IntLiteral(m);
  }

  /** `#d` at `k` refers to argument `d`, for a digit 1..9. */
  predicate ArgRef(t: string, k: nat)
  {
    k + 1 < |t| && t[k] == '#' && '1' <= t[k + 1] <= '9'
  }

  function DigitAt(t: string, k: nat): int
    requires k < |t|
  {
    t[k] as int - '0' as int
  }

  /** The `\def` argument-count loop from index `j` with running maximum
      `nargs`; a digit 1..9 after `#` is stepped over. */
  function ArityFrom(t: string, j: nat, nargs: int): int
    decreases |t| - j
  {
    if j >= |t| then nargs
    else if t[j] == '#' && j + 1 < |t| && IsDigit(t[j + 1]) then
      var d := DigitAt(t, j + 1);
      if 1 <= d <= 9 then ArityFrom(t, j + 2, if d > nargs then d else nargs)
      else ArityFrom(t, j + 1, nargs)
    else ArityFrom(t, j + 1, nargs)
  }

  /** The number of arguments of a `\def` with parameter text `t`. */
  function Arity(t: string): int
  {
    ArityFrom(t, 0, 0)
  }

  lemma {:induction false} ArityFromIsMax(t: string, j: nat, n: int)
    requires 0 <= n <= 9
    ensures n <= ArityFrom(t, j, n) <= 9
    ensures forall k: nat :: j <= k && ArgRef(t, k) ==> DigitAt(t, k + 1) <= ArityFrom(t, j, n)
    ensures ArityFrom(t, j, n) == n || exists k: nat :: j <= k && ArgRef(t, k) && DigitAt(t, k + 1) == ArityFrom(t, j, n)
    decreases |t| - j
  {
    if j < |t| {
      if t[j] == '#' && j + 1 < |t| && IsDigit(t[j + 1]) {
        var d := DigitAt(t, j + 1);
        if 1 <= d <= 9 {
          ArityFromIsMax(t, j + 2, if d > n then d else n);
          assert ArgRef(t, j) && !ArgRef(t, j + 1);
        } else {
          ArityFromIsMax(t, j + 1, n);
        }
      } else {
        ArityFromIsMax(t, j + 1, n);
        assert !ArgRef(t, j);
      }
    }
  }

  /** A `\def` takes as many arguments as the highest `#1`..`#9` its
      parameter text names: never more than nine, every reference is
      covered, and the highest one is attained. */
  lemma {:induction false} ArityIsMax(t: string)
    ensures 0 <= Arity(t) <= 9
    ensures forall k: nat :: ArgRef(t, k) ==> DigitAt(t, k + 1) <= Arity(t)
    ensures Arity(t) == 0 || exists k: nat :: ArgRef(t, k) && DigitAt(t, k + 1) == Arity(t)
  {
    ArityFromIsMax(t, 0, 0);
  }

  /** The counting loop of `_get_command_from_def_style`. */
  method CountArgs(t: string) returns (nargs: int)
    ensures nargs == Arity(t)
  {
    var j := 0;
    nargs := 0;
    while j < |t|
      invariant j <= |t|
      invariant ArityFrom(t, j, nargs) == Arity(t)
      decreases |t| - j
    {
      if t[j] == '#' && j + 1 < |t| && IsDigit(t[j + 1]) {
        var digit := DigitAt(t, j + 1);
        if 1 <= digit <= 9 {
          nargs := if digit > nargs then digit else nargs;
          j := j + 1;
        }
      }
      j := j + 1;
    }
  }

  // ---------------------------------------------------------------------
  // Finding definitions
  // ---------------------------------------------------------------------

  /** A definition keyword and where it starts. */
  datatype DefHit = DefHit(keyword: string, start: nat)

  /** The search over `keywords`, keeping the earliest hit; on a tie the
      keyword searched first wins. */
  function EarliestDef(s: string, from: nat, keywords: seq<string>, best: Option<DefHit>): Option<DefHit>
    decreases |keywords|
  {
    if keywords == [] then best
    else
      var idx := Find(s, keywords[0], from);
      var next := if idx != -1 && (best.None? || idx < best.value.start) then Some(DefHit(keywords[0], idx)) else best;
      EarliestDef(s, from, keywords[1..], next)
  }

  /** `h` is an occurrence of its keyword at or after `from`. */
  predicate IsHit(s: string, from: nat, h: DefHit)
  {
    from <= h.start && OccursAt(s, h.keyword, h.start)
  }

  lemma {:induction false} EarliestDefMeaning(s: string, from: nat, keywords: seq<string>, best: Option<DefHit>)
    requires best.Some? ==> IsHit(s, from, best.value)
    ensures var r := EarliestDef(s, from, keywords, best);
      && (r.Some? ==> IsHit(s, from, r.value) && (r.value.keyword in keywords || r == best))
      && (r.Some? ==> forall c, k :: c in keywords && from <= k < r.value.start ==> !OccursAt(s, c, k))
      && (best.Some? ==> r.Some? && r.value.start <= best.value.start)
      && (r.None? ==> forall c, k :: c in keywords && from <= k ==> !OccursAt(s, c, k))
    decreases |keywords|
  {
    if keywords != [] {
      var idx := Find(s, keywords[0], from);
      var next := if idx != -1 && (best.None? || idx < best.value.start) then Some(DefHit(keywords[0], idx)) else best;
      EarliestDefMeaning(s, from, keywords[1..], next);
      assert forall c :: c in keywords ==> c == keywords[0] || c in keywords[1..];
    }
  }

  /** `_find_next_command_def`: the earliest definition keyword at or after
      `from`. */
  function NextCommandDef(s: string, from: nat): (r: Option<DefHit>)
    ensures r.Some? ==> r.value.keyword in SupportedCommandDefs && IsHit(s, from, r.value)
  {
    EarliestDefMeaning(s, from, SupportedCommandDefs, None);
    EarliestDef(s, from, SupportedCommandDefs, None)
  }

  /** The hit is the leftmost occurrence of any definition keyword, and
      there is no hit exactly when no keyword occurs from `from` on. */
  lemma {:induction false} NextCommandDefIsLeftmost(s: string, from: nat)
    ensures var r := NextCommandDef(s, from);
      && (r.Some? ==> forall c, k :: c in SupportedCommandDefs && from <= k < r.value.start ==> !OccursAt(s, c, k))
      && (r.None? <==> forall c, k :: c in SupportedCommandDefs && from <= k ==> !OccursAt(s, c, k))
  {
    EarliestDefMeaning(s, from, SupportedCommandDefs, None);
  }

  /** `_find_next_command_def`, looping over the keywords. */
  method FindNextCommandDef(content: string, startPos: nat) returns (r: Option<DefHit>)
    ensures r == NextCommandDef(content, startPos)
  {
    r := None;
    for n := 0 to |SupportedCommandDefs|
      invariant EarliestDef(content, startPos, SupportedCommandDefs[n..], r) == NextCommandDef(content, startPos)
    {
      var cmd := SupportedCommandDefs[n];
      var idx := Find(content, cmd, startPos);
      if idx != -1 && (r.None? || idx < r.value.start) {
        r := Some(DefHit(cmd, idx));
      }
      assert SupportedCommandDefs[n..][1..] == SupportedCommandDefs[n + 1..];
    }
  }

  /** Where the parser starts after a keyword: just after it, or one
      further when a `*` follows and stars are skipped. */
  function BodyStart(s: string, h: DefHit, skipStar: bool): (r: nat)
    requires h.start + |h.keyword| <= |s|
    ensures h.start + |h.keyword| <= r <= |s|
  {
    var p := h.start + |h.keyword|;
    if skipStar && p < |s| && s[p] == '*' then p + 1 else p
  }

  /** The parts of a `\def`: name, argument count and body (which may be
      missing). */
  datatype DefStyle = DefStyle(name: string, nargs: int, definition: Option<string>)

  datatype DefParse = DefParse(value: Option<DefStyle>, pos: nat)

  /** `_get_command_from_def_style`: a command name, parameter text and a
      brace group, in that order; no result when the name or the parameter
      text is missing. */
  function DefStyleAt(s: string, p: nat): (r: DefParse)
    requires p <= |s|
    ensures p <= r.pos <= |s|
  {
    var n := CommandNameAt(s, p);
    if n.value.None? then DefParse(None, n.pos)
    else
      var t := ParameterTextAt(s, n.pos);
      if t.value.None? then DefParse(None, t.pos)
      else
        var b := BracesAt(s, t.pos);
        DefParse(Some(DefStyle(n.value.value, Arity(t.value.value), b.value)), b.pos)
  }

  /** A parsed `\def` has a name that starts with a backslash and at most
      nine arguments. */
  lemma {:induction false} DefStyleShape(s: string, p: nat)
    requires p <= |s|
    ensures var r := DefStyleAt(s, p);
      r.value.Some? ==> r.value.value.name != [] && r.value.value.name[0] == '\\' && 0 <= r.value.value.nargs <= 9
  {
    CommandNameMeaning(s, p);
    var n := CommandNameAt(s, p);
    if n.value.Some? {
      var t := ParameterTextAt(s, n.pos);
      if t.value.Some? {
        ArityIsMax(t.value.value);
      }
    }
  }

  method GetCommandFromDefStyle(parser: LatexParser) returns (r: Option<DefStyle>)
    requires parser.Valid()
    modifies parser
    ensures parser.Valid() && DefParse(r, parser.pos) == DefStyleAt(parser.content, old(parser.pos))
  {
    var name := parser.ParseCommandName();
    if name.None? {
      return None;
    }
    var paramText := parser.ParseParameterText();
    if paramText.None? {
      return None;
    }
    var nargs := CountArgs(paramText.value);
    var definition := parser.ParseBraces();
    r := Some(DefStyle(name.value, nargs, definition));
  }

  /** One round of the definition scan at index `i`. */
  datatype DefinitionStep =
    | NoMore                              // no keyword from `i` on
    | Stuck(resume: nat)                  // a `\def` without name or parameter text
    | Skipped(next: nat)                  // a definition that did not parse
    | Found(command: Command, next: nat)  // a definition and the index after it

  /** A `\def` found at `h`, parsed from `p`. */
  function DefStepAt(s: string, h: DefHit, p: nat): (r: DefinitionStep)
    requires h.start + |h.keyword| <= p <= |s|
    ensures r.Stuck? ==> r.resume == h.start + |h.keyword|
    ensures r.Skipped? ==> r.next == h.start + |h.keyword|
    ensures r.Found? ==> p <= r.next <= |s|
    ensures !r.NoMore?
  {
    var resume := h.start + |h.keyword|;
    var d := DefStyleAt(s, p);
    if d.value.None? then Stuck(resume)
    else if d.value.value.definition.None? then Skipped(resume)
    else Found(Command(d.value.value.name, d.value.value.nargs, d.value.value.definition.value, None), d.pos)
  }

  /** A `\newcommand`-style definition found at `h`, parsed from `p`: a
      braced name, an optional bracketed count (not a number counts as 0),
      an optional bracketed default and a braced body. */
  function NewCommandStepAt(s: string, h: DefHit, p: nat): (r: DefinitionStep)
    requires h.start + |h.keyword| <= p <= |s|
    ensures r.Skipped? ==> r.next == h.start + |h.keyword|
    ensures r.Found? ==> p <= r.next <= |s|
    ensures r.Skipped? || r.Found?
  {
    var resume := h.start + |h.keyword|;
    var name := BracesAt(s, p);
    if name.value.None? then Skipped(resume)
    else
      var count := BracketsAt(s, name.pos);
      var nargs := CountOf(count.value);
      var default := BracketsAt(s, count.pos);
      var body := BracesAt(s, default.pos);
      if body.value.None? then Skipped(resume)
      else Found(Command(name.value.value, nargs, body.value.value, default.value), body.pos)
  }

  /** The body of the `find_and_parse_commands` loop at index `i`. */
  function DefinitionAt(s: string, i: nat): (r: DefinitionStep)
    requires i <= |s|
    ensures r.Stuck? ==> i < r.resume <= |s|
    ensures r.Skipped? ==> i < r.next <= |s|
    ensures r.Found? ==> i < r.next <= |s|
  {
    match NextCommandDef(s, i)
    case None => NoMore
    case Some(h) =>
      var p := BodyStart(s, h, h.keyword != Def);
      if h.keyword == Def then DefStepAt(s, h, p) else NewCommandStepAt(s, h, p)
  }

  /** `find_and_parse_commands` as written, from index `i`: `None` when the
      loop never ends, which happens at the first `\def` whose name or
      parameter text fails to parse, because the loop then repeats without
      moving `i`. */
  function DefinitionsFrom(s: string, i: nat): Option<seq<Command>>
    decreases |s| - i
  {
    if i >= |s| then Some([])
    else match DefinitionAt(s, i)
      case NoMore => Some([])
      case Stuck(_) => None
      case Skipped(next) => DefinitionsFrom(s, next)
      case Found(c, next) =>
        match DefinitionsFrom(s, next)
        case None => None
        case Some(rest) => Some([c] + rest)
  }

  /** The scan with the `\def` failure treated like every other failed
      definition: resume after the keyword. */
  function FixedDefinitionsFrom(s: string, i: nat): seq<Command>
    decreases |s| - i
  {
    if i >= |s| then []
    else match DefinitionAt(s, i)
      case NoMore => []
      case Stuck(resume) => FixedDefinitionsFrom(s, resume)
      case Skipped(next) => FixedDefinitionsFrom(s, next)
      case Found(c, next) => [c] + FixedDefinitionsFrom(s, next)
  }

  /** Where the scan as written ends, it agrees with the corrected one. */
  lemma {:induction false} DefinitionsAgree(s: string, i: nat)
    ensures DefinitionsFrom(s, i).Some? ==> DefinitionsFrom(s, i).value == FixedDefinitionsFrom(s, i)
    decreases |s| - i
  {
    if i < |s| {
      match DefinitionAt(s, i)
      case NoMore =>
      case Stuck(_) =>
      case Skipped(next) => DefinitionsAgree(s, next);
      case Found(c, next) => DefinitionsAgree(s, next);
    }
  }

  /** `\defx` makes the scan as written loop for ever; the corrected scan
      finds no definition in it. */
  lemma {:induction false} NamelessDefHangs()
    ensures DefinitionsFrom("\\defx", 0).None?
    ensures FixedDefinitionsFrom("\\defx", 0) == []
  {
    var s := "\\defx";
    assert OccursAt(s, Def, 0) by {
      assert s[0..4] == Def;
    }
    assert Find(s, Def, 0) == 0;
    assert Find(s, NewCommand, 0) == -1 && Find(s, DeclareRobustCommand, 0) == -1;
    assert EarliestDef(s, 0, SupportedCommandDefs, None) == EarliestDef(s, 0, [Def], None);
    assert [Def][1..] == [];
    assert EarliestDef(s, 0, [Def], None) == EarliestDef(s, 0, [], Some(DefHit(Def, 0)));
    assert NextCommandDef(s, 0) == Some(DefHit(Def, 0));
    assert DefinitionAt(s, 0) == Stuck(4);
    assert NextCommandDef(s, 4) == None;
    assert FixedDefinitionsFrom(s, 4) == [];
  }

  /** Content without any definition keyword defines no command. */
  lemma {:induction false} NoKeywordNoDefinitions(s: string)
    requires forall c, k :: c in SupportedCommandDefs ==> !OccursAt(s, c, k)
    ensures FixedDefinitionsFrom(s, 0) == []
  {
    NextCommandDefIsLeftmost(s, 0);
  }

  method ParseDefStyle(content: string, h: DefHit, parserStart: nat) returns (step: DefinitionStep)
    requires h.start + |h.keyword| <= parserStart <= |content|
    ensures step == DefStepAt(content, h, parserStart)
  {
    var parser := new LatexParser(content, parserStart);
    var details := GetCommandFromDefStyle(parser);
    if details.None? {
      return Stuck(h.start + |h.keyword|);
    }
    if details.value.definition.None? {
      return Skipped(h.start + |h.keyword|);
    }
    step := Found(Command(details.value.name, details.value.nargs, details.value.definition.value, None), parser.pos);
  }

  method ParseNewCommandStyle(content: string, h: DefHit, parserStart: nat) returns (step: DefinitionStep)
    requires h.start + |h.keyword| <= parserStart <= |content|
    ensures step == NewCommandStepAt(content, h, parserStart)
  {
    var parser := new LatexParser(content, parserStart);
    var name := parser.ParseBraces();
    if name.None? {
      return Skipped(h.start + |h.keyword|);
    }
    var nargsText := parser.ParseBrackets();
    var nargs := CountOf(nargsText);
    var optionalDefault := parser.ParseBrackets();
    var definition := parser.ParseBraces();
    if definition.None? {
      return Skipped(h.start + |h.keyword|);
    }
    step := Found(Command(name.value, nargs, definition.value, optionalDefault), parser.pos);
  }

  /** One round of the `find_and_parse_commands` loop. */
  method ParseDefinitionAt(content: string, i: nat) returns (step: DefinitionStep)
    requires i <= |content|
    ensures step == DefinitionAt(content, i)
  {
    var hit := FindNextCommandDef(content, i);
    if hit.None? {
      return NoMore;
    }
    var found, startIndex := hit.value.keyword, hit.value.start;
    var parserStart := startIndex + |found|;
    if found != Def && parserStart < |content| && content[parserStart] == '*' {
      parserStart := parserStart + 1;
    }
    assert parserStart == BodyStart(content, hit.value, found != Def);
    if found == Def {
      step := ParseDefStyle(content, hit.value, parserStart);
    } else {
      step := ParseNewCommandStyle(content, hit.value, parserStart);
    }
  }

  /** `find_and_parse_commands`, with a `\def` that fails to parse skipped
      like every other failed definition. */
  method FindAndParseCommands(content: string) returns (commands: seq<Command>)
    ensures commands == FixedDefinitionsFrom(content, 0)
  {
    commands := [];
    var i := 0;
    while i < |content|
      invariant i <= |content|
      invariant commands + FixedDefinitionsFrom(content, i) == FixedDefinitionsFrom(content, 0)
      decreases |content| - i
    {
      var step := ParseDefinitionAt(content, i);
      match step
      case Found(c, next) =>
        commands := commands + [c];
        i := next;
      case Stuck(resume) =>
        i := resume;
      case Skipped(next) =>
        i := next;
      case NoMore =>
        break;
    }
  }

  // ---------------------------------------------------------------------
  // Usages
  // ---------------------------------------------------------------------

  /** What the expansion can raise: `command.name[-1]` on an empty name. */
  datatype Error = IndexError

  /** A usage: where it starts, where its last argument ends, and the
      arguments. */
  datatype Usage = Usage(start: nat, end: nat, args: seq<string>)

  datatype ArgsParse = ArgsParse(args: Option<seq<string>>, pos: nat)

  /** `k` brace groups in a row, appended to `acc`. */
  function ArgsFrom(s: string, p: nat, k: int, acc: seq<string>): (r: ArgsParse)
    requires p <= |s|
    ensures p <= r.pos <= |s|
    ensures r.args.Some? ==> |r.args.value| == |acc| + (if k < 0 then 0 else k) && r.args.value[..|acc|] == acc
    decreases if k < 0 then 0 else k
  {
    if k <= 0 then ArgsParse(Some(acc), p)
    else
      var b := BracesAt(s, p);
      if b.value.None? then ArgsParse(None, b.pos)
      else ArgsFrom(s, b.pos, k - 1, acc + [b.value.value])
  }

  /** The arguments of a usage whose name ends at `p`: with a default, a
      bracketed first argument or else the default, which counts toward
      `nargs`; then the remaining brace groups. */
  function UsageArgs(s: string, c: Command, p: nat): (r: ArgsParse)
    requires p <= |s|
    ensures p <= r.pos <= |s|
    ensures r.args.Some? ==> |r.args.value| == ArgCount(c)
    ensures r.args.Some? && c.optionalDefault.Some? ==>
      r.args.value[0] == (var b := BracketsAt(s, p); if b.value.Some? then b.value.value else c.optionalDefault.value)
  {
    if c.optionalDefault.Some? then
      var b := BracketsAt(s, p);
      ArgsFrom(s, b.pos, c.nargs - 1, [if b.value.Some? then b.value.value else c.optionalDefault.value])
    else ArgsFrom(s, p, c.nargs, [])
  }

  /** How many arguments a usage of `c` has once parsed. */
  function ArgCount(c: Command): nat
  {
    if c.optionalDefault.Some? then 1 + (if c.nargs < 1 then 0 else c.nargs - 1)
    else if c.nargs < 0 then 0 else c.nargs
  }

  /** The name ends in a letter and a letter follows it at `k`: the match is
      the prefix of a longer command name. */
  predicate PrefixOfLonger(s: string, name: string, k: nat)
  {
    name != [] && IsAlpha(name[|name| - 1]) && k + |name| < |s| && IsAlpha(s[k + |name|])
  }

  /** `_find_command_usage` from `search`: the first usable occurrence of
      the name; an empty name raises as soon as it is found. */
  /** The usage at an occurrence `m` of the name, if it is one. */
  function UsageAt(s: string, c: Command, m: nat): (r: Option<Usage>)
    requires m + |c.name| <= |s|
    ensures r.Some? ==> r.value.start == m && m + |c.name| <= r.value.end <= |s|
  {
    if PrefixOfLonger(s, c.name, m) then None
    else
      var a := UsageArgs(s, c, m + |c.name|);
      if a.args.Some? then Some(Usage(m, a.pos, a.args.value)) else None
  }

  /** `_find_command_usage` from `k`, one position at a time: the first
      occurrence of the name that is a usage; an empty name raises as soon
      as it is found. */
  function UsageFrom(s: string, c: Command, k: nat): (r: Result<Option<Usage>, Error>)
    ensures r.Success? && r.value.Some? ==>
      var u := r.value.value; c.name != [] && k <= u.start && u.start + |c.name| <= u.end <= |s|
    ensures c.name != [] ==> r.Success?
    decreases |s| + 1 - k
  {
    if k > |s| then Success(None)
    else if !OccursAt(s, c.name, k) then UsageFrom(s, c, k + 1)
    else if c.name == [] then Failure(IndexError)
    else match UsageAt(s, c, k)
      case Some(u) => Success(Some(u))
      case None => UsageFrom(s, c, k + 1)
  }
  /** An empty name raises exactly when the search starts inside the
      content, where the empty string is always found. */
  lemma {:induction false} UsageRaises(s: string, c: Command, k: nat)
    ensures UsageFrom(s, c, k).Failure? <==> c.name == [] && k <= |s|
  {
    if c.name == [] && k <= |s| {
      assert OccursAt(s, c.name, k);
    }
  }

  /** The positions before the next occurrence of the name change nothing,
      so the search may jump there, as the source does with `find`. */
  lemma {:induction false} UsageFromSkips(s: string, c: Command, k: nat, m: nat)
    requires k <= m && forall j :: k <= j < m ==> !OccursAt(s, c.name, j)
    ensures UsageFrom(s, c, k) == UsageFrom(s, c, m)
    decreases m - k
  {
    if k < m {
      UsageFromSkips(s, c, k + 1, m);
    }
  }

  /** One round of the `find`-based search, with the occurrence `m` found. */
  lemma {:induction false} UsageFromFind(s: string, c: Command, k: nat, m: int)
    requires m == Find(s, c.name, k)
    ensures m == -1 ==> UsageFrom(s, c, k) == Success(None)
    ensures m != -1 ==> UsageFrom(s, c, k) == UsageFrom(s, c, m)
  {
    if m == -1 {
      if k <= |s| {
        UsageFromSkips(s, c, k, |s| + 1);
      }
    } else {
      UsageFromSkips(s, c, k, m);
    }
  }

  /** An occurrence of the name at `k` that is a usage: not the prefix of a
      longer name, and followed by all its arguments. */
  predicate Usable(s: string, c: Command, k: nat)
  {
    OccursAt(s, c.name, k) && UsageAt(s, c, k).Some?
  }

  /** The usage found is a usable occurrence; none is found exactly when
      no occurrence from `k` on is usable. */
  lemma {:induction false} UsageFromFound(s: string, c: Command, k: nat, r: Result<Option<Usage>, Error>)
    requires r == UsageFrom(s, c, k) && r.Success?
    ensures r.value.Some? ==> Usable(s, c, r.value.value.start) && r.value == UsageAt(s, c, r.value.value.start)
    ensures r.value.None? ==> forall j :: k <= j ==> !Usable(s, c, j)
    decreases |s| + 1 - k
  {
    if k <= |s| {
      if !OccursAt(s, c.name, k) || UsageAt(s, c, k).None? {
        UsageFromFound(s, c, k + 1, r);
      }
    }
  }

  /** No occurrence before the usage found is usable. */
  lemma {:induction false} UsageFromLeftmost(s: string, c: Command, k: nat, r: Result<Option<Usage>, Error>)
    requires r == UsageFrom(s, c, k) && r.Success? && r.value.Some?
    ensures forall j :: k <= j < r.value.value.start ==> !Usable(s, c, j)
    decreases |s| + 1 - k
  {
    if k <= |s| {
      if !OccursAt(s, c.name, k) || UsageAt(s, c, k).None? {
        UsageFromLeftmost(s, c, k + 1, r);
      }
    }
  }

  /** The usage found is the leftmost usable occurrence at or after `k`: not
      the prefix of a longer name, with `ArgCount` arguments, and ending
      where its arguments end. */
  lemma {:induction false} UsageFromMeaning(s: string, c: Command, k: nat)
    requires UsageFrom(s, c, k).Success? && UsageFrom(s, c, k).value.Some?
    ensures var u := UsageFrom(s, c, k).value.value;
      && OccursAt(s, c.name, u.start) && !PrefixOfLonger(s, c.name, u.start)
      && u.end == UsageArgs(s, c, u.start + |c.name|).pos
      && |u.args| == ArgCount(c)
      && forall j :: k <= j < u.start ==> !Usable(s, c, j)
  {
    var r := UsageFrom(s, c, k);
    UsageFromFound(s, c, k, r);
    UsageFromLeftmost(s, c, k, r);
  }

  /** At an occurrence of a non-empty name the search either stops with
      the usage there or moves on by one. */
  lemma {:induction false} UsageFromOccurrence(s: string, c: Command, m: nat)
    requires c.name != [] && OccursAt(s, c.name, m)
    ensures UsageFrom(s, c, m) == match UsageAt(s, c, m) case Some(u) => Success(Some(u)) case None => UsageFrom(s, c, m + 1)
  {
  }

  /** `_find_command_usage`, jumping from occurrence to occurrence. */
  method FindCommandUsage(content: string, command: Command, startIndex: nat) returns (r: Result<Option<Usage>, Error>)
    ensures r == UsageFrom(content, command, startIndex)
  {
    var searchPos := startIndex;
    while true
      invariant UsageFrom(content, command, searchPos) == UsageFrom(content, command, startIndex)
      decreases |content| + 1 - searchPos
    {
      var matchStart := Find(content, command.name, searchPos);
      UsageFromFind(content, command, searchPos, matchStart);
      if matchStart == -1 {
        return Success(None);
      }
      if command.name == [] {
        return Failure(IndexError);
      }
      UsageFromOccurrence(content, command, matchStart);
      var usage := ParseUsageAt(content, command, matchStart);
      if usage.Some? {
        return Success(usage);
      }
      searchPos := matchStart + 1;
    }
  }

  /** The test of one occurrence in `_find_command_usage`: not the prefix
      of a longer name, and all arguments present. */
  method ParseUsageAt(content: string, command: Command, matchStart: nat) returns (r: Option<Usage>)
    requires matchStart + |command.name| <= |content|
    ensures r == UsageAt(content, command, matchStart)
  {
    if PrefixOfLonger(content, command.name, matchStart) {
      return None;
    }
    var args := ParseUsageArgs(content, command, matchStart + |command.name|);
    if args.args.Some? {
      return Some(Usage(matchStart, args.pos, args.args.value));
    }
    return None;
  }

  /** The argument parsing of `_find_command_usage`. */
  method ParseUsageArgs(content: string, command: Command, p: nat) returns (r: ArgsParse)
    requires p <= |content|
    ensures r == UsageArgs(content, command, p)
  {
    var parser := new LatexParser(content, p);
    if command.optionalDefault.Some? {
      var optionalArg := parser.ParseBrackets();
      var first := if optionalArg.Some? then optionalArg.value else command.optionalDefault.value;
      r := ParseRequiredArgs(parser, command.nargs - 1, [first]);
    } else {
      r := ParseRequiredArgs(parser, command.nargs, []);
    }
  }

  /** The loop over the required arguments, appending each to `args`. */
  method ParseRequiredArgs(parser: LatexParser, numReqArgs: int, args: seq<string>) returns (r: ArgsParse)
    requires parser.Valid()
    modifies parser
    ensures r == ArgsFrom(parser.content, old(parser.pos), numReqArgs, args)
  {
    var n := 0;
    var found := args;
    while n < numReqArgs
      invariant parser.Valid()
      invariant ArgsFrom(parser.content, parser.pos, numReqArgs - n, found) == ArgsFrom(parser.content, old(parser.pos), numReqArgs, args)
      decreases numReqArgs - n
    {
      var requiredArg := parser.ParseBraces();
      if requiredArg.None? {
        return ArgsParse(None, parser.pos);
      }
      found := found + [requiredArg.value];
      n := n + 1;
    }
    r := ArgsParse(Some(found), parser.pos);
  }

  // ---------------------------------------------------------------------
  // Substitution
  // ---------------------------------------------------------------------

  /** The placeholder of argument `k`: `#k`. */
  function Placeholder(k: nat): string
  {
    "#" + NatToString(k)
  }

  /** The definition with `#1`, `#2`, ... replaced by the arguments, one
      placeholder after the other, so that an argument containing a later
      placeholder is itself substituted. */
  function Expand(definition: string, args: seq<string>): string
    decreases |args|
  {
    if args == [] then definition
    else ReplaceAll(Expand(definition, args[..|args| - 1]), Placeholder(|args|), args[|args| - 1])
  }

  lemma {:induction false} LacksNotFound(s: string, pat: string)
    requires pat != [] && Lacks(s, pat[0])
    ensures Find(s, pat, 0) == -1
  {
  }

  /** A definition without `#` is the same whatever the arguments. */
  lemma {:induction false} ExpandWithoutPlaceholders(definition: string, args: seq<string>)
    requires Lacks(definition, '#')
    ensures Expand(definition, args) == definition
    decreases |args|
  {
    if args != [] {
      ExpandWithoutPlaceholders(definition, args[..|args| - 1]);
      LacksNotFound(definition, Placeholder(|args|));
    }
  }

  /** Substitution is sequential: `#1` becomes `#2`, which the second
      argument then replaces. */
  lemma {:induction false} ExpandIsSequential()
    ensures Expand("#1", ["#2", "x"]) == "x"
  {
    assert Placeholder(1) == "#1" && Placeholder(2) == "#2";
    assert ["#2", "x"][..1] == ["#2"];
    assert ["#2"][..0] == [];
    assert OccursAt("#1", "#1", 0);
    assert Find("#1", "#1", 0) == 0;
    assert "#1"[2..] == [];
    assert Expand("#1", ["#2"]) == "#2";
    assert OccursAt("#2", "#2", 0);
    assert Find("#2", "#2", 0) == 0;
    assert "#2"[2..] == [];
  }

  /** `replace_command_usages` from index `i`: text outside usages is
      copied, each usage replaced by its expanded definition. */
  function ReplaceFrom(s: string, c: Command, i: nat): (r: Result<string, Error>)
    decreases |s| - i
  {
    if i >= |s| then Success([])
    else match UsageFrom(s, c, i)
      case Failure(e) => Failure(e)
      case Success(None) => Success(s[i..])
      case Success(Some(u)) =>
        match ReplaceFrom(s, c, u.end)
        case Failure(e) => Failure(e)
        case Success(rest) => Success(s[i..u.start] + Expand(c.definition, u.args) + rest)
  }

  /** Replacement raises exactly for an empty name on non-empty content. */
  lemma {:induction false} ReplaceFromRaises(s: string, c: Command, i: nat)
    ensures ReplaceFrom(s, c, i).Failure? <==> c.name == [] && i < |s|
    decreases |s| - i
  {
    if i < |s| {
      UsageRaises(s, c, i);
      var u := UsageFrom(s, c, i);
      if u.Success? && u.value.Some? {
        ReplaceFromRaises(s, c, u.value.value.end);
      }
    }
  }

  /** Content in which the name does not occur comes back unchanged. */
  lemma {:induction false} ReplaceWithoutUsage(s: string, c: Command)
    requires c.name != [] && Find(s, c.name, 0) == -1
    ensures ReplaceFrom(s, c, 0) == Success(s)
  {
    UsageFromFind(s, c, 0, -1);
    if s != [] {
      assert s[0..] == s;
    }
  }

  function Prepend(out: string, r: Result<string, Error>): Result<string, Error>
  {
    if r.Success? then Success(out + r.value) else r
  }

  /** One round of `replace_command_usages` at `i`, given the search
      result there. */
  lemma {:induction false} ReplaceFromStep(s: string, c: Command, i: nat, found: Result<Option<Usage>, Error>)
    requires i < |s| && found == UsageFrom(s, c, i)
    ensures found.Failure? ==> ReplaceFrom(s, c, i) == Failure(found.error)
    ensures found == Success(None) ==> ReplaceFrom(s, c, i) == Success(s[i..])
    ensures found.Success? && found.value.Some? ==>
      var u := found.value.value;
      ReplaceFrom(s, c, i) == Prepend(s[i..u.start] + Expand(c.definition, u.args), ReplaceFrom(s, c, u.end))
  {
  }

  lemma {:induction false} PrependNothing(r: Result<string, Error>)
    ensures Prepend([], r) == r
  {
    if r.Success? {
      assert [] + r.value == r.value;
    }
  }

  lemma {:induction false} PrependTwice(a: string, b: string, r: Result<string, Error>)
    ensures Prepend(a, Prepend(b, r)) == Prepend(a + b, r)
  {
    if r.Success? {
      assert a + (b + r.value) == (a + b) + r.value;
    }
  }

  /** The substitution loop of `replace_command_usages`. */
  method SubstituteArgs(definition: string, args: seq<string>) returns (r: string)
    ensures r == Expand(definition, args)
  {
    r := definition;
    for idx := 0 to |args|
      invariant r == Expand(definition, args[..idx])
    {
      assert args[..idx + 1][..idx] == args[..idx];
      r := ReplaceAll(r, Placeholder(idx + 1), args[idx]);
    }
    assert args[..|args|] == args;
  }

  /** `replace_command_usages`. */
  method ReplaceCommandUsages(content: string, command: Command) returns (r: Result<string, Error>)
    ensures r == ReplaceFrom(content, command, 0)
  {
    var output: string := [];
    var i := 0;
    PrependNothing(ReplaceFrom(content, command, 0));
    while i < |content|
      invariant i <= |content|
      invariant ReplaceFrom(content, command, 0) == Prepend(output, ReplaceFrom(content, command, i))
      decreases |content| - i
    {
      var result := FindCommandUsage(content, command, i);
      ReplaceFromStep(content, command, i, result);
      match result
      case Failure(e) =>
        return Failure(e);
      case Success(None) =>
        output := output + content[i..];
        return Success(output);
      case Success(Some(u)) =>
        var definition := SubstituteArgs(command.definition, u.args);
        PrependTwice(output, content[i..u.start] + definition, ReplaceFrom(content, command, u.end));
        output := output + (content[i..u.start] + definition);
        i := u.end;
    }
    assert output + [] == output;
    r := Success(output);
  }

  // ---------------------------------------------------------------------
  // Removing definitions
  // ---------------------------------------------------------------------

  /** Where the definition whose keyword is at `h` ends, when it parses;
      a star after any keyword is skipped. */
  function DefinitionEnd(s: string, h: DefHit): (r: Option<nat>)
    requires OccursAt(s, h.keyword, h.start)
    ensures r.Some? ==> h.start + |h.keyword| <= r.value <= |s|
  {
    var p := BodyStart(s, h, true);
    if h.keyword == Def then DefStyleEnd(s, p) else NewCommandEnd(s, p)
  }

  /** A `\def` needs a name and a body; its parameter text is passed
      over, found or not. */
  function DefStyleEnd(s: string, p: nat): (r: Option<nat>)
    requires p <= |s|
    ensures r.Some? ==> p <= r.value <= |s|
  {
    var n := CommandNameAt(s, p);
    if n.value.None? then None
    else
      var b := BracesAt(s, ParameterTextAt(s, n.pos).pos);
      if b.value.None? then None else Some(b.pos)
  }

  /** The other keywords need a braced name, two optional bracket groups
      and a body. */
  function NewCommandEnd(s: string, p: nat): (r: Option<nat>)
    requires p <= |s|
    ensures r.Some? ==> p <= r.value <= |s|
  {
    var name := BracesAt(s, p);
    if name.value.None? then None
    else
      var b := BracesAt(s, BracketsAt(s, BracketsAt(s, name.pos).pos).pos);
      if b.value.None? then None else Some(b.pos)
  }

  /** `remove_custom_definitions` from index `i`: text between definitions
      is kept; a definition that parses is dropped whole, and a keyword
      whose definition does not parse is dropped alone. */
  function RemoveFrom(s: string, i: nat): (r: string)
    requires i <= |s|
    ensures |r| <= |s| - i
    decreases |s| - i
  {
    if i == |s| then []
    else match NextCommandDef(s, i)
      case None => s[i..]
      case Some(h) =>
        var next := match DefinitionEnd(s, h) case None => h.start + |h.keyword| case Some(e) => e;
        s[i..h.start] + RemoveFrom(s, next)
  }

  /** Content without definition keywords is left as it is. */
  lemma {:induction false} RemoveWithoutKeywords(s: string)
    requires forall c, k :: c in SupportedCommandDefs ==> !OccursAt(s, c, k)
    ensures RemoveFrom(s, 0) == s
  {
    NextCommandDefIsLeftmost(s, 0);
    if s != [] {
      assert s[0..] == s;
    }
  }

  /** The definition skipping of `remove_custom_definitions`. */
  method SkipDefinition(content: string, h: DefHit) returns (r: Option<nat>)
    requires OccursAt(content, h.keyword, h.start)
    ensures r == DefinitionEnd(content, h)
  {
    var parserStart := h.start + |h.keyword|;
    if parserStart < |content| && content[parserStart] == '*' {
      parserStart := parserStart + 1;
    }
    assert parserStart == BodyStart(content, h, true);
    if h.keyword == Def {
      r := SkipDefStyle(content, parserStart);
    } else {
      r := SkipNewCommandStyle(content, parserStart);
    }
  }

  method SkipDefStyle(content: string, parserStart: nat) returns (r: Option<nat>)
    requires parserStart <= |content|
    ensures r == DefStyleEnd(content, parserStart)
  {
    var parser := new LatexParser(content, parserStart);
    var name := parser.ParseCommandName();
    if name.None? {
      return None;
    }
    var _ := parser.ParseParameterText();
    var body := parser.ParseBraces();
    if body.None? {
      return None;
    }
    r := Some(parser.pos);
  }

  method SkipNewCommandStyle(content: string, parserStart: nat) returns (r: Option<nat>)
    requires parserStart <= |content|
    ensures r == NewCommandEnd(content, parserStart)
  {
    var parser := new LatexParser(content, parserStart);
    var name := parser.ParseBraces();
    if name.None? {
      return None;
    }
    var _ := parser.ParseBrackets();
    var _ := parser.ParseBrackets();
    var body := parser.ParseBraces();
    if body.None? {
      return None;
    }
    r := Some(parser.pos);
  }

  /** One round of `remove_custom_definitions` at `i`, with the keyword
      found at `h` and the scan resuming at `next`. */
  lemma {:induction false} RemoveFromStep(s: string, i: nat, h: DefHit, next: nat)
    requires i < |s| && NextCommandDef(s, i) == Some(h)
    requires next == match DefinitionEnd(s, h) case None => h.start + |h.keyword| case Some(e) => e
    ensures RemoveFrom(s, i) == s[i..h.start] + RemoveFrom(s, next)
  {
  }

  /** `remove_custom_definitions`. */
  method RemoveCustomDefinitions(content: string) returns (r: string)
    ensures r == RemoveFrom(content, 0)
  {
    var output: string := [];
    var i := 0;
    ghost var total := RemoveFrom(content, 0);
    while i < |content|
      invariant i <= |content|
      invariant output + RemoveFrom(content, i) == total
      decreases |content| - i
    {
      var hit := FindNextCommandDef(content, i);
      if hit.None? {
        assert RemoveFrom(content, i) == content[i..];
        return output + content[i..];
      }
      var h := hit.value;
      var end := SkipDefinition(content, h);
      var next := if end.None? then h.start + |h.keyword| else end.value;
      RemoveFromStep(content, i, h, next);
      var piece := content[i..h.start];
      ghost var rest := RemoveFrom(content, next);
      assert output + (piece + rest) == (output + piece) + rest;
      output := output + piece;
      i := next;
    }
    r := output;
  }

  // ---------------------------------------------------------------------
  // Inlining
  // ---------------------------------------------------------------------

  /** At most this many passes over the commands. */
  const MaxIterations: nat := 10

  /** One pass: every command's usages replaced, in definition order. */
  function Pass(s: string, commands: seq<Command>): Result<string, Error>
    decreases |commands|
  {
    if commands == [] then Success(s)
    else match ReplaceFrom(s, commands[0], 0)
      case Failure(e) => Failure(e)
      case Success(t) => Pass(t, commands[1..])
  }

  /** Up to `n` passes, stopping after the first that changes nothing. */
  function Passes(s: string, commands: seq<Command>, n: nat): Result<string, Error>
    decreases n
  {
    if n == 0 then Success(s)
    else match Pass(s, commands)
      case Failure(e) => Failure(e)
      case Success(t) => if t == s then Success(s) else Passes(t, commands, n - 1)
  }

  /** `k` passes without the early stop. */
  function Iterate(s: string, commands: seq<Command>, k: nat): Result<string, Error>
    decreases k
  {
    if k == 0 then Success(s)
    else match Pass(s, commands)
      case Failure(e) => Failure(e)
      case Success(t) => Iterate(t, commands, k - 1)
  }

  /** `inline_custom_commands`, with definitions found by the corrected
      scan. */
  function Inline(s: string): Result<string, Error>
  {
    var commands := FixedDefinitionsFrom(s, 0);
    if commands == [] then Success(s)
    else match Passes(RemoveFrom(s, 0), commands, MaxIterations)
      case Failure(e) => Failure(e)
      case Success(t) => Success(Strip(t))
  }

  /** The passes stop at a fixpoint or after `n` of them: the result is `k`
      plain passes for some `k <= n`, and unless `k == n` one more pass
      would change nothing. */
  lemma {:induction false} PassesBounded(s: string, commands: seq<Command>, n: nat)
    ensures Passes(s, commands, n).Success? ==>
      exists k :: 0 <= k <= n && Iterate(s, commands, k) == Passes(s, commands, n)
        && (k == n || Pass(Passes(s, commands, n).value, commands) == Passes(s, commands, n))
    decreases n
  {
    if n > 0 {
      match Pass(s, commands)
      case Failure(_) =>
      case Success(t) =>
        if t == s {
          assert Iterate(s, commands, 0) == Passes(s, commands, n);
        } else {
          PassesBounded(t, commands, n - 1);
          if Passes(t, commands, n - 1).Success? {
            var k :| 0 <= k <= n - 1 && Iterate(t, commands, k) == Passes(t, commands, n - 1)
              && (k == n - 1 || Pass(Passes(t, commands, n - 1).value, commands) == Passes(t, commands, n - 1));
            assert Iterate(s, commands, k + 1) == Iterate(t, commands, k);
          }
        }
    } else {
      assert Iterate(s, commands, 0) == Passes(s, commands, n);
    }
  }

  /** Commands whose names are all non-empty never make a pass raise. */
  lemma {:induction false} PassWithNamedCommands(s: string, commands: seq<Command>)
    requires forall c :: c in commands ==> c.name != []
    ensures Pass(s, commands).Success?
    decreases |commands|
  {
    if commands != [] {
      ReplaceFromRaises(s, commands[0], 0);
      PassWithNamedCommands(ReplaceFrom(s, commands[0], 0).value, commands[1..]);
    }
  }

  lemma {:induction false} PassesWithNamedCommands(s: string, commands: seq<Command>, n: nat)
    requires forall c :: c in commands ==> c.name != []
    ensures Passes(s, commands, n).Success?
    decreases n
  {
    if n > 0 {
      PassWithNamedCommands(s, commands);
      PassesWithNamedCommands(Pass(s, commands).value, commands, n - 1);
    }
  }

  /** Content without definition keywords comes back unchanged (and not
      stripped); content that defines something comes back stripped. */
  lemma {:induction false} InlineUnchangedOrStripped(s: string)
    ensures (forall c, k :: c in SupportedCommandDefs ==> !OccursAt(s, c, k)) ==> Inline(s) == Success(s)
    ensures FixedDefinitionsFrom(s, 0) != [] && Inline(s).Success? ==>
      var t := Inline(s).value; t == [] || (!IsSpace(t[0]) && !IsSpace(t[|t| - 1]))
  {
    if forall c, k :: c in SupportedCommandDefs ==> !OccursAt(s, c, k) {
      NoKeywordNoDefinitions(s);
    }
    var commands := FixedDefinitionsFrom(s, 0);
    if commands != [] {
      var p := Passes(RemoveFrom(s, 0), commands, MaxIterations);
      if p.Success? {
        StripHasNoOuterSpace(p.value);
      }
    }
  }

  /** One pass of the fixpoint loop. */
  method ReplaceAllCommands(content: string, commands: seq<Command>) returns (r: Result<string, Error>)
    ensures r == Pass(content, commands)
  {
    var current := content;
    for n := 0 to |commands|
      invariant Pass(current, commands[n..]) == Pass(content, commands)
    {
      assert commands[n..][1..] == commands[n + 1..];
      var next := ReplaceCommandUsages(current, commands[n]);
      if next.Failure? {
        return Failure(next.error);
      }
      current := next.value;
    }
    r := Success(current);
  }

  /** One round of the fixpoint loop, given the pass's result. */
  lemma {:induction false} PassesStep(s: string, commands: seq<Command>, n: nat, p: Result<string, Error>)
    requires n > 0 && p == Pass(s, commands)
    ensures p.Failure? ==> Passes(s, commands, n) == Failure(p.error)
    ensures p == Success(s) ==> Passes(s, commands, n) == Success(s)
    ensures p.Success? && p.value != s ==> Passes(s, commands, n) == Passes(p.value, commands, n - 1)
  {
  }

  lemma {:induction false} InlineAfterRemoval(s: string, commands: seq<Command>, rest: string, passes: Result<string, Error>)
    requires commands == FixedDefinitionsFrom(s, 0) && commands != []
    requires rest == RemoveFrom(s, 0) && passes == Passes(rest, commands, MaxIterations)
    ensures Inline(s) == if passes.Failure? then Failure(passes.error) else Success(Strip(passes.value))
  {
  }

  /** The fixpoint loop of `inline_custom_commands`, at most
      `maxIterations` passes. */
  method RunPasses(content: string, commands: seq<Command>, maxIterations: nat) returns (r: Result<string, Error>)
    ensures r == Passes(content, commands, maxIterations)
  {
    var current := content;
    for iteration := 0 to maxIterations
      invariant Passes(current, commands, maxIterations - iteration) == Passes(content, commands, maxIterations)
    {
      var previous := current;
      var next := ReplaceAllCommands(current, commands);
      PassesStep(current, commands, maxIterations - iteration, next);
      if next.Failure? {
        return Failure(next.error);
      }
      current := next.value;
      if current == previous {
        return Success(current);
      }
    }
    r := Success(current);
  }

  /** `inline_custom_commands`. */
  method InlineCustomCommands(content: string) returns (r: Result<string, Error>)
    ensures r == Inline(content)
  {
    var commands := FindAndParseCommands(content);
    if commands == [] {
      return Success(content);
    }
    var contentNoDefs := RemoveCustomDefinitions(content);
    var passes := RunPasses(contentNoDefs, commands, MaxIterations);
    InlineAfterRemoval(content, commands, contentNoDefs, passes);
    if passes.Failure? {
      return Failure(passes.error);
    }
    r := Success(Strip(passes.value));
  }

  // ---------------------------------------------------------------------
  // A worked example: `\newcommand{\R}{\mathbb{R}}$\R$`
  // ---------------------------------------------------------------------

  /** `\newcommand` opens the text. */
  lemma {:induction false} ExampleKeywordAtStart(s: string)
    requires s == "\\newcommand{\\R}{\\mathbb{R}}$\\R$"
    ensures Find(s, NewCommand, 0) == 0
  {
    assert s[0..|NewCommand|] == NewCommand;
  }

  /** The text has no `D` and no `f`, so neither `\DeclareRobustCommand`
      nor `\def` occurs in it. */
  lemma {:induction false} ExampleLacksKeywords(s: string)
    requires s == "\\newcommand{\\R}{\\mathbb{R}}$\\R$"
    ensures 'D' !in s && 'f' !in s
  {
  }

  /** The definition scan first hits `\newcommand` at 0. */
  lemma {:induction false} ExampleFirstHit(s: string)
    requires s == "\\newcommand{\\R}{\\mathbb{R}}$\\R$"
    ensures NextCommandDef(s, 0) == Some(DefHit(NewCommand, 0))
  {
    ExampleKeywordAtStart(s);
    ExampleLacksKeywords(s);
    assert s[0..] == s;
    MissingCharNotFound(s, DeclareRobustCommand, 0, 1);
    MissingCharNotFound(s, Def, 0, 3);
    var h := Some(DefHit(NewCommand, 0));
    assert EarliestDef(s, 0, [Def], h) == h;
    assert EarliestDef(s, 0, [DeclareRobustCommand, Def], h) == h;
  }

  /** The closing brace of `{\mathbb{R}}` opened at 15 is at 26. */
  lemma {:induction false} ExampleBodyCloses(s: string)
    requires s == "\\newcommand{\\R}{\\mathbb{R}}$\\R$"
    ensures CloseFrom(s, 16, 1) == Some(26)
  {
    assert CloseFrom(s, 26, 1) == Some(26);
    assert CloseFrom(s, 25, 2) == Some(26);
    assert CloseFrom(s, 24, 2) == Some(26);
    assert CloseFrom(s, 23, 1) == Some(26);
    assert CloseFrom(s, 22, 1) == Some(26);
    assert CloseFrom(s, 21, 1) == Some(26);
    assert CloseFrom(s, 20, 1) == Some(26);
    assert CloseFrom(s, 19, 1) == Some(26);
    assert CloseFrom(s, 18, 1) == Some(26);
    assert CloseFrom(s, 17, 1) == Some(26);
  }

  /** The definition at 0 is `\R` with no arguments and body
      `\mathbb{R}`, and it ends at 27, where `$\R$` begins. */
  lemma {:induction false} ExampleDefinition(s: string)
    requires s == "\\newcommand{\\R}{\\mathbb{R}}$\\R$"
    ensures DefinitionAt(s, 0) == Found(Command("\\R", 0, "\\mathbb{R}", None), 27)
    ensures DefinitionEnd(s, DefHit(NewCommand, 0)) == Some(27)
  {
    ExampleFirstHit(s);
    var h := DefHit(NewCommand, 0);
    assert BodyStart(s, h, true) == 11;
    assert SpaceEnd(s, 11) == 11;
    assert CloseFrom(s, 14, 1) == Some(14);
    assert CloseFrom(s, 12, 1) == Some(14);
    assert s[12..14] == "\\R";
    assert BracesAt(s, 11) == Parsed(Some("\\R"), 15);
    assert SpaceEnd(s, 15) == 15;
    assert BracketsAt(s, 15) == Parsed(None, 15);
    ExampleBodyCloses(s);
    assert s[16..26] == "\\mathbb{R}";
    assert BracesAt(s, 15) == Parsed(Some("\\mathbb{R}"), 27);
  }

  /** No keyword follows the definition. */
  lemma {:induction false} ExampleNoMoreDefinitions(s: string)
    requires s == "\\newcommand{\\R}{\\mathbb{R}}$\\R$"
    ensures NextCommandDef(s, 27) == None
  {
    assert s[27..] == "$\\R$";
    MissingCharNotFound(s, NewCommand, 27, 1);
    MissingCharNotFound(s, DeclareRobustCommand, 27, 1);
    MissingCharNotFound(s, Def, 27, 3);
    assert EarliestDef(s, 27, [Def], None) == None;
    assert EarliestDef(s, 27, [DeclareRobustCommand, Def], None) == None;
  }

  /** The scan finds the one command, and removing the definitions leaves
      `$\R$`. */
  lemma {:induction false} ExampleScan(s: string)
    requires s == "\\newcommand{\\R}{\\mathbb{R}}$\\R$"
    ensures FixedDefinitionsFrom(s, 0) == [Command("\\R", 0, "\\mathbb{R}", None)]
    ensures RemoveFrom(s, 0) == "$\\R$"
  {
    ExampleDefinition(s);
    ExampleNoMoreDefinitions(s);
    assert FixedDefinitionsFrom(s, 27) == [];
    ExampleFirstHit(s);
    assert RemoveFrom(s, 27) == s[27..] == "$\\R$";
  }

  /** The first pass replaces the one use of `\R` by its body. */
  lemma {:induction false} ExampleFirstPass(u: string, t: string, c: Command)
    requires u == "$\\R$" && t == "$\\mathbb{R}$" && c == Command("\\R", 0, "\\mathbb{R}", None)
    ensures Pass(u, [c]) == Success(t)
  {
    FirstCharMismatch(u, c.name, 0);
    assert u[1..3] == c.name;
    assert !PrefixOfLonger(u, c.name, 1);
    assert UsageAt(u, c, 1) == Some(Usage(1, 3, []));
    assert UsageFrom(u, c, 0) == Success(Some(Usage(1, 3, [])));
    assert UsageFrom(u, c, 3) == Success(None);
    assert ReplaceFrom(u, c, 3) == Success("$");
    assert u[0..1] + Expand(c.definition, []) + "$" == t;
    assert ReplaceFrom(u, c, 0) == Success(t);
  }

  /** The second pass finds no use left and changes nothing. */
  lemma {:induction false} ExampleSecondPass(t: string, c: Command)
    requires t == "$\\mathbb{R}$" && c == Command("\\R", 0, "\\mathbb{R}", None)
    ensures Pass(t, [c]) == Success(t)
  {
    FirstCharMismatch(t, c.name, 0);
    assert t[1..3] != c.name by { assert t[1..3][1] == 'm'; }
    assert t[2..] == "mathbb{R}$";
    MissingCharNotFound(t, c.name, 2, 0);
    assert Find(t, c.name, 0) == -1;
    ReplaceWithoutUsage(t, c);
  }

  /** The first pass replaces the use of `\R`; the second changes nothing,
      so the passes stop. */
  lemma {:induction false} ExamplePasses(u: string, t: string, c: Command)
    requires u == "$\\R$" && t == "$\\mathbb{R}$" && c == Command("\\R", 0, "\\mathbb{R}", None)
    ensures Passes(u, [c], MaxIterations) == Success(t)
  {
    ExampleFirstPass(u, t, c);
    ExampleSecondPass(t, c);
    assert Passes(t, [c], MaxIterations - 1) == Success(t);
  }

  /** A macro defined with `\newcommand` and used in math: the definition
      is removed and the use replaced by its body. */
  lemma {:induction false} InlineExample(s: string)
    requires s == "\\newcommand{\\R}{\\mathbb{R}}$\\R$"
    ensures Inline(s) == Success("$\\mathbb{R}$")
  {
    ExampleScan(s);
    var c := Command("\\R", 0, "\\mathbb{R}", None);
    ExamplePasses("$\\R$", "$\\mathbb{R}$", c);
    StripUnpadded("$\\mathbb{R}$");
  }
}
