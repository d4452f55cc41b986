/** Key-case conversion of JSON-like values: `snake_case` keys to
    `camelCase` and back, applied to every key of every nested object. */
module JsonUtils {
  import opened Wrappers
  import opened Text

  datatype JsonError =
    | InvalidKey   // `ValueError`: a key with a character other than a letter or `_`
    | InvalidCase  // `ValueError`: an unknown conversion name

  // ---------------------------------------------------------------------
  // Key validation
  // ---------------------------------------------------------------------

  predicate IsKeyChar(c: char)
  {
    IsAlpha(c) || c == '_'
  }

  predicate KeyChars(s: string)
  {
    forall i :: 0 <= i < |s| ==> IsKeyChar(s[i])
  }

  /** `re.match(r'^[a-zA-Z_]*$', s)`: letters and underscores only; since
      `$` also matches just before a final newline, one trailing `\n` is
      let through as well. */
  predicate ValidKey(s: string)
  {
    KeyChars(s) || (s != [] && s[|s| - 1] == '\n' && KeyChars(s[..|s| - 1]))
  }

  // ---------------------------------------------------------------------
  // snake_case to camelCase
  // ---------------------------------------------------------------------

  /** `str.title()` on a split component (letters, at most a final
      newline): the first character upper-cased, the rest lower-cased. */
  function Title(w: string): (r: string)
    ensures |r| == |w|
  {
    if w == [] then [] else [UpperChar(w[0])] + Lower(w[1..])
  }

  /** `''.join(x.title() for x in components)`. */
  function TitledConcat(components: seq<string>): (r: string)
  {
    if components == [] then [] else Title(components[0]) + TitledConcat(components[1..])
  }

  /** `snake_to_camel`: the first component as it is, the others
      title-cased, all concatenated. */
  function SnakeToCamel(s: string): (r: Result<string, JsonError>)
    ensures r.Failure? <==> !ValidKey(s)
  {
    if !ValidKey(s) then Failure(InvalidKey)
    else
      var components := Split(s, "_");
      Success(components[0] + TitledConcat(components[1..]))
  }

  // ---------------------------------------------------------------------
  // camelCase to snake_case
  // ---------------------------------------------------------------------

  /** `re.sub('([a-z])([A-Z])', r'\1_\2', s)`: an underscore between each
      lower-case letter and the upper-case letter after it; matches do not
      overlap, so scanning resumes after the upper-case letter. */
  function Underscored(s: string): (r: string)
    ensures |r| >= |s|
    decreases |s|
  {
    if |s| >= 2 && IsLower(s[0]) && IsUpper(s[1]) then [s[0], '_', s[1]] + Underscored(s[2..])
    else if s == [] then []
    else [s[0]] + Underscored(s[1..])
  }

  /** `camel_to_snake`: underscores inserted, then everything lower-cased. */
  function CamelToSnake(s: string): (r: Result<string, JsonError>)
    ensures r.Failure? <==> !ValidKey(s)
    ensures r.Success? ==> forall i :: 0 <= i < |r.value| ==> !IsUpper(r.value[i])
  {
    if !ValidKey(s) then Failure(InvalidKey) else Success(Lower(Underscored(s)))
  }

  // ---------------------------------------------------------------------
  // Properties of the key converters
  // ---------------------------------------------------------------------

  predicate AllLower(w: string)
  {
    forall i :: 0 <= i < |w| ==> IsLower(w[i])
  }

  /** A lower-case word is left alone by the underscore pass. */
  lemma {:induction false} UnderscoredLower(w: string)
    requires AllLower(w)
    ensures Underscored(w) == w
    decreases |w|
  {
    if w != [] {
      UnderscoredLower(w[1..]);
      assert w == [w[0]] + w[1..];
    }
  }

  /** A lower-case letter not followed by an upper-case one is copied. */
  lemma {:induction false} UnderscoredLowerStep(c: char, x: string)
    requires IsLower(c) && x != [] && !IsUpper(x[0])
    ensures Underscored([c] + x) == [c] + Underscored(x)
  {
    assert ([c] + x)[1..] == x;
  }

  /** A lower-case letter followed by an upper-case one gets a `_`. */
  lemma {:induction false} UnderscoredPair(c: char, t: string)
    requires IsLower(c) && t != [] && IsUpper(t[0])
    ensures Underscored([c] + t) == [c, '_', t[0]] + Underscored(t[1..])
  {
    assert ([c] + t)[2..] == t[1..];
  }

  lemma {:induction false} PrependHead(w: string, x: string)
    requires w != []
    ensures w + x == [w[0]] + (w[1..] + x)
  {
    assert w == [w[0]] + w[1..];
  }

  /** The underscore pass puts one `_` where a lower-case word meets an
      upper-case letter, and goes on after that letter. */
  lemma {:induction false} UnderscoredBoundary(w: string, t: string)
    requires w != [] && AllLower(w) && t != [] && IsUpper(t[0])
    ensures Underscored(w + t) == w + ("_" + [t[0]] + Underscored(t[1..]))
    decreases |w|
  {
    var tail := "_" + [t[0]] + Underscored(t[1..]);
    PrependHead(w, t);
    if |w| == 1 {
      UnderscoredPair(w[0], t);
      assert w == [w[0]] && w[1..] + t == t;
      assert [w[0], '_', t[0]] + Underscored(t[1..]) == [w[0]] + tail;
    } else {
      var v := w[1..];
      UnderscoredBoundary(v, t);
      UnderscoredLowerStep(w[0], v + t);
      PrependHead(w, tail);
    }
  }

  /** Lower-casing leaves lower-case text alone. */
  lemma {:induction false} LowerOfLower(w: string)
    requires AllLower(w)
    ensures Lower(w) == w
  {
  }

  lemma {:induction false} LowerConcat(a: string, b: string)
    ensures Lower(a + b) == Lower(a) + Lower(b)
  {
  }

  /** The words of a canonical snake key: lower-case and non-empty, and
      every word strictly between the first and the last has at least two
      letters (a one-letter inner word would leave two capitals side by
      side, which the reverse conversion does not split). */
  predicate CanonicalWords(ws: seq<string>)
  {
    |ws| >= 1
      && (forall i :: 0 <= i < |ws| ==> ws[i] != [] && AllLower(ws[i]))
      && (forall i :: 0 < i < |ws| - 1 ==> |ws[i]| >= 2)
  }

  function SnakeTail(ws: seq<string>): string
  {
    if ws == [] then [] else "_" + ws[0] + SnakeTail(ws[1..])
  }

  /** The underscore pass on a camel tail gives the snake tail with each
      word title-cased. */
  function UnderscoredTail(ws: seq<string>): string
  {
    if ws == [] then [] else "_" + Title(ws[0]) + UnderscoredTail(ws[1..])
  }

  lemma {:induction false} TitledHead(ws: seq<string>)
    requires ws != [] && ws[0] != [] && AllLower(ws[0])
    ensures TitledConcat(ws) == [UpperChar(ws[0][0])] + (ws[0][1..] + TitledConcat(ws[1..]))
  {
    var w := ws[0];
    LowerOfLower(w[1..]);
    ConcatAssoc([UpperChar(w[0])], w[1..], TitledConcat(ws[1..]));
  }

  lemma {:induction false} TailHead(ws: seq<string>)
    requires ws != [] && ws[0] != [] && AllLower(ws[0])
    ensures UnderscoredTail(ws) == ("_" + [UpperChar(ws[0][0])]) + (ws[0][1..] + UnderscoredTail(ws[1..]))
  {
    var w := ws[0];
    LowerOfLower(w[1..]);
    ConcatAssoc("_" + [UpperChar(w[0])], w[1..], UnderscoredTail(ws[1..]));
  }

  /** One word of the tail: the underscore pass splits it off at its
      capital, given that the rest of the tail comes out right. */
  lemma {:induction false} TailStep(p: string, ws: seq<string>)
    requires p != [] && AllLower(p) && ws != [] && ws[0] != [] && AllLower(ws[0])
    requires Underscored(ws[0][1..] + TitledConcat(ws[1..])) == ws[0][1..] + UnderscoredTail(ws[1..])
    ensures Underscored(p + TitledConcat(ws)) == p + UnderscoredTail(ws)
  {
    var u := [UpperChar(ws[0][0])];
    var x := ws[0][1..] + TitledConcat(ws[1..]);
    var ux := ws[0][1..] + UnderscoredTail(ws[1..]);
    TitledHead(ws);
    TailHead(ws);
    UnderscoredBoundary(p, u + x);
    assert (u + x)[1..] == x && [(u + x)[0]] == u;
    ConcatAssoc(p, "_", u);
    ConcatAssoc(p, "_" + u, ux);
  }

  lemma {:induction false} TailRoundTrip(p: string, ws: seq<string>)
    requires p != [] && AllLower(p)
    requires forall i :: 0 <= i < |ws| ==> ws[i] != [] && AllLower(ws[i])
    requires forall i :: 0 <= i < |ws| - 1 ==> |ws[i]| >= 2
    ensures Underscored(p + TitledConcat(ws)) == p + UnderscoredTail(ws)
    decreases |ws|
  {
    if ws == [] {
      UnderscoredLower(p);
      assert p + TitledConcat(ws) == p;
      assert p + UnderscoredTail(ws) == p;
    } else {
      var w, rest := ws[0], ws[1..];
      if rest == [] {
        assert w[1..] + TitledConcat(rest) == w[1..];
        assert w[1..] + UnderscoredTail(rest) == w[1..];
        UnderscoredLower(w[1..]);
      } else {
        TailRoundTrip(w[1..], rest);
      }
      TailStep(p, ws);
    }
  }

  lemma {:induction false} LowerTail(ws: seq<string>)
    requires forall i :: 0 <= i < |ws| ==> ws[i] != [] && AllLower(ws[i])
    ensures Lower(UnderscoredTail(ws)) == SnakeTail(ws)
    decreases |ws|
  {
    if ws != [] {
      var w := ws[0];
      LowerTail(ws[1..]);
      LowerConcat("_" + Title(w), UnderscoredTail(ws[1..]));
      LowerConcat("_", Title(w));
      LowerConcat([UpperChar(w[0])], Lower(w[1..]));
      LowerOfLower(w[1..]);
      LowerOfLower(w);
      assert Lower([UpperChar(w[0])]) == [w[0]];
      assert w == [w[0]] + w[1..];
    }
  }

  lemma {:induction false} SnakeTailIsJoin(ws: seq<string>)
    requires ws != []
    ensures Join(ws, "_") == ws[0] + SnakeTail(ws[1..])
    decreases |ws|
  {
    if |ws| > 1 {
      SnakeTailIsJoin(ws[1..]);
      assert ws[1..][1..] == ws[2..];
    }
  }

  /** A key made of canonical words survives snake to camel to snake. */
  lemma {:induction false} KeyRoundTrip(ws: seq<string>)
    requires CanonicalWords(ws)
    ensures var k := Join(ws, "_");
      && SnakeToCamel(k).Success?
      && CamelToSnake(SnakeToCamel(k).value) == Success(k)
  {
    var k := Join(ws, "_");
    forall i | 0 <= i < |ws| ensures Lacks(ws[i], '_') {
      assert AllLower(ws[i]);
    }
    SnakeTailIsJoin(ws);
    assert ValidKey(k) by {
      SnakeTailLetters(ws[1..]);
      assert KeyChars(ws[0]);
    }
    SplitJoin(ws, "_");
    var camel := ws[0] + TitledConcat(ws[1..]);
    assert SnakeToCamel(k) == Success(camel);
    assert ValidKey(camel) by {
      TitledLetters(ws[1..]);
    }
    TailRoundTrip(ws[0], ws[1..]);
    LowerConcat(ws[0], UnderscoredTail(ws[1..]));
    LowerOfLower(ws[0]);
    LowerTail(ws[1..]);
  }

  lemma {:induction false} SnakeTailLetters(ws: seq<string>)
    requires forall i :: 0 <= i < |ws| ==> AllLower(ws[i])
    ensures KeyChars(SnakeTail(ws))
    decreases |ws|
  {
    if ws != [] {
      SnakeTailLetters(ws[1..]);
      assert KeyChars(ws[0]);
    }
  }

  lemma {:induction false} TitledLetters(ws: seq<string>)
    requires forall i :: 0 <= i < |ws| ==> AllLower(ws[i])
    ensures KeyChars(TitledConcat(ws))
    decreases |ws|
  {
    if ws != [] {
      TitledLetters(ws[1..]);
      var w := ws[0];
      if w != [] {
        assert KeyChars(Title(w)) by {
          var t := Title(w);
          forall i | 0 <= i < |t| ensures IsKeyChar(t[i]) {
            if i > 0 {
              assert t[i] == LowerChar(w[i]);
            }
          }
        }
      }
    }
  }

  /** `snake_to_camel` on a valid key whose `_`-separated words are known. */
  lemma {:induction false} SnakeToCamelOfWords(s: string, ws: seq<string>)
    requires KeyOfWords(s, ws)
    ensures SnakeToCamel(s) == Success(ws[0] + TitledConcat(ws[1..]))
  {
    SplitJoin(ws, "_");
  }

  lemma {:induction false} TitleOfLower(w: string)
    requires w != [] && AllLower(w)
    ensures Title(w) == [UpperChar(w[0])] + w[1..]
  {
    LowerOfLower(w[1..]);
  }

  /** `snake` is a valid key made of the words `ws`. */
  predicate KeyOfWords(snake: string, ws: seq<string>)
  {
    ValidKey(snake) && ws != [] && Join(ws, "_") == snake
      && forall i :: 0 <= i < |ws| ==> Lacks(ws[i], '_')
  }

  lemma {:induction false} SingleLetterWords(snake: string)
    requires snake == "a_b_c"
    ensures KeyOfWords(snake, ["a", "b", "c"])
  {
    var ws := ["a", "b", "c"];
    assert Join(ws[1..], "_") == "b_c";
    assert KeyChars(snake);
  }

  lemma {:induction false} SingleLetterCamel(ws: seq<string>, camel: string)
    requires ws == ["a", "b", "c"] && camel == "aBC"
    ensures ws[0] + TitledConcat(ws[1..]) == camel
  {
    TitleOfLower("b");
    TitleOfLower("c");
    assert ws[1..][1..] == ["c"];
    assert ws[1..][1..][1..] == [];
    assert TitledConcat(ws[1..][1..]) == "C";
  }

  lemma {:induction false} SingleLetterUnderscored(camel: string)
    requires camel == "aBC"
    ensures Underscored(camel) == "a_BC"
  {
    assert Underscored("C") == "C";
    UnderscoredBoundary("a", "BC");
    assert camel == "a" + "BC";
  }

  /** A one-letter inner word does not come back: `a_b_c` becomes `aBC`,
      which becomes `a_bc`. */
  lemma {:induction false} SingleLetterWordsMerge(snake: string, camel: string)
    requires snake == "a_b_c" && camel == "aBC"
    ensures SnakeToCamel(snake) == Success(camel)
    ensures CamelToSnake(camel) == Success("a_bc")
  {
    var ws := ["a", "b", "c"];
    SingleLetterWords(snake);
    SnakeToCamelOfWords(snake, ws);
    SingleLetterCamel(ws, camel);
    assert KeyChars(camel);
    SingleLetterUnderscored(camel);
    assert Lower("a_BC") == "a_bc";
  }

  lemma {:induction false} FirstNameWords(snake: string)
    requires snake == "_first_name"
    ensures KeyOfWords(snake, ["", "first", "name"])
  {
    var ws := ["", "first", "name"];
    assert Join(ws[1..], "_") == "first_name";
    assert KeyChars(snake);
  }

  lemma {:induction false} FirstNameTitled(ws: seq<string>)
    requires ws == ["first", "name"]
    ensures TitledConcat(ws) == "FirstName"
  {
    TitleOfLower("first");
    TitleOfLower("name");
    assert ws[1..] == ["name"];
    assert ws[1..][1..] == [];
    assert TitledConcat(ws[1..]) == "Name";
    assert "First" + "Name" == "FirstName";
  }

  /** A leading underscore gives an empty first component, so the first
      word is capitalised too. */
  lemma {:induction false} LeadingUnderscore(snake: string)
    requires snake == "_first_name"
    ensures SnakeToCamel(snake) == Success("FirstName")
  {
    var ws := ["", "first", "name"];
    FirstNameWords(snake);
    SnakeToCamelOfWords(snake, ws);
    FirstNameTitled(ws[1..]);
    assert ws[0] + "FirstName" == "FirstName";
  }

  lemma {:induction false} CapitalRunUnderscored(camel: string)
    requires camel == "ItemID"
    ensures Underscored(camel) == "Item_ID"
  {
    assert Underscored("D") == "D";
    UnderscoredBoundary("tem", "ID");
    assert "tem" + "ID" == camel[1..];
    assert "ID"[1..] == "D";
  }

  /** Capitals after a capital stay together: `ItemID` becomes `item_id`. */
  lemma {:induction false} CapitalRun(camel: string)
    requires camel == "ItemID"
    ensures CamelToSnake(camel) == Success("item_id")
  {
    assert KeyChars(camel);
    CapitalRunUnderscored(camel);
    assert Lower("Item_ID") == "item_id";
  }

  lemma {:induction false} EmptyKey(key: string)
    requires key == ""
    ensures SnakeToCamel(key) == Success("")
    ensures CamelToSnake(key) == Success("")
  {
    assert Find(key, "_", 1) == -1;
    assert Find(key, "_", 0) == -1 by {
      assert !OccursAt(key, "_", 0);
    }
    assert Split(key, "_") == [key];
    assert key + TitledConcat([]) == "";
  }

  // ---------------------------------------------------------------------
  // Nested values (`_convert_keys_recursive`, `convert_keys`)
  // ---------------------------------------------------------------------

  /** A JSON-like value; a dictionary is its entries in insertion order
      with distinct keys, and every other value is an opaque scalar. */
  datatype Json =
    | Scalar(token: string)
    | Array(items: seq<Json>)
    | Object(fields: seq<Field>)

  datatype Field = Field(key: string, value: Json)

  datatype Case = SnakeToCamelCase | CamelToSnakeCase

  function ConvertKey(k: string, c: Case): Result<string, JsonError>
  {
    match c
    case SnakeToCamelCase => SnakeToCamel(k)
    case CamelToSnakeCase => CamelToSnake(k)
  }

  function Keys(fields: seq<Field>): seq<string>
  {
    if fields == [] then [] else [fields[0].key] + Keys(fields[1..])
  }

  /** Dictionary assignment: an existing key keeps its place and takes the
      new value, a new key goes last. */
  function DictSet(fields: seq<Field>, k: string, v: Json): (r: seq<Field>)
    ensures k in Keys(r)
  {
    if fields == [] then [Field(k, v)]
    else if fields[0].key == k then [Field(k, v)] + fields[1..]
    else [fields[0]] + DictSet(fields[1..], k, v)
  }

  /** `_convert_keys_recursive`: keys of objects converted, arrays mapped
      element by element, scalars kept; the first raising conversion
      stops it. */
  function ConvertJson(j: Json, c: Case): (r: Result<Json, JsonError>)
    ensures r.Success? && j.Scalar? ==> r.value == j
    ensures r.Success? && j.Array? ==> r.value.Array? && |r.value.items| == |j.items|
    ensures r.Success? && j.Object? ==> r.value.Object?
    decreases j, 1
  {
    match j
    case Scalar(_) => Success(j)
    case Array(items) =>
      var converted :- ConvertItems(j, 0, c);
      Success(Array(converted))
    case Object(fields) =>
      var converted :- ConvertFields(j, 0, [], c);
      Success(Object(converted))
  }

  function ConvertItems(j: Json, i: nat, c: Case): (r: Result<seq<Json>, JsonError>)
    requires j.Array? && i <= |j.items|
    ensures r.Success? ==> |r.value| == |j.items| - i
    decreases j, 0, |j.items| - i
  {
    if i == |j.items| then Success([])
    else
      var head :- ConvertJson(j.items[i], c);
      var tail :- ConvertItems(j, i + 1, c);
      Success([head] + tail)
  }

  /** The dictionary comprehension: the key is converted before its value. */
  function ConvertFields(j: Json, i: nat, acc: seq<Field>, c: Case): Result<seq<Field>, JsonError>
    requires j.Object? && i <= |j.fields|
    decreases j, 0, |j.fields| - i
  {
    if i == |j.fields| then Success(acc)
    else
      var k :- ConvertKey(j.fields[i].key, c);
      var v :- ConvertJson(j.fields[i].value, c);
      ConvertFields(j, i + 1, DictSet(acc, k, v), c)
  }

  /** `convert_keys`: the case is named by a string. */
  function ConvertKeys(obj: Json, caseName: string): (r: Result<Json, JsonError>)
    ensures caseName != "snake_to_camel" && caseName != "camel_to_snake" ==> r == Failure(InvalidCase)
  {
    if caseName == "snake_to_camel" then ConvertJson(obj, SnakeToCamelCase)
    else if caseName == "camel_to_snake" then ConvertJson(obj, CamelToSnakeCase)
    else Failure(InvalidCase)
  }

  /** Arrays keep their order: element `i` of the result is element `i`
      converted. */
  lemma {:induction false} ItemsInOrder(j: Json, i: nat, c: Case)
    requires j.Array? && i <= |j.items| && ConvertItems(j, i, c).Success?
    ensures forall n :: 0 <= n < |j.items| - i ==>
      ConvertJson(j.items[i + n], c) == Success(ConvertItems(j, i, c).value[n])
    decreases |j.items| - i
  {
    if i < |j.items| {
      ItemsInOrder(j, i + 1, c);
      var r := ConvertItems(j, i, c).value;
      forall n | 0 < n < |j.items| - i
        ensures ConvertJson(j.items[i + n], c) == Success(r[n])
      {
        assert r[n] == ConvertItems(j, i + 1, c).value[n - 1];
        assert j.items[i + n] == j.items[(i + 1) + (n - 1)];
      }
    }
  }

  // ---------------------------------------------------------------------
  // Round trip of nested values
  // ---------------------------------------------------------------------

  /** A key made of canonical words. */
  ghost predicate CanonicalKey(k: string)
  {
    exists ws :: CanonicalWords(ws) && k == Join(ws, "_")
  }

  ghost function Camel(k: string): string
    requires CanonicalKey(k)
  {
    var ws :| CanonicalWords(ws) && k == Join(ws, "_");
    KeyRoundTrip(ws);
    SnakeToCamel(k).value
  }

  /** Canonical keys convert and come back, so distinct keys stay distinct. */
  lemma {:induction false} CanonicalKeyRoundTrip(k: string)
    requires CanonicalKey(k)
    ensures SnakeToCamel(k) == Success(Camel(k))
    ensures CamelToSnake(Camel(k)) == Success(k)
  {
    var ws :| CanonicalWords(ws) && k == Join(ws, "_");
    KeyRoundTrip(ws);
  }

  lemma {:induction false} CamelInjective(a: string, b: string)
    requires CanonicalKey(a) && CanonicalKey(b) && Camel(a) == Camel(b)
    ensures a == b
  {
    CanonicalKeyRoundTrip(a);
    CanonicalKeyRoundTrip(b);
  }

  predicate DistinctKeys(fields: seq<Field>)
  {
    forall a, b :: 0 <= a < b < |fields| ==> fields[a].key != fields[b].key
  }

  /** Every object's keys are canonical and distinct, at every depth. */
  ghost predicate SnakeShaped(j: Json)
    decreases j, 1
  {
    match j
    case Scalar(_) => true
    case Array(items) => forall n :: 0 <= n < |items| ==> SnakeShaped(items[n])
    case Object(fields) => DistinctKeys(fields) && FieldsSnakeShaped(j, 0)
  }

  ghost predicate FieldsSnakeShaped(j: Json, i: nat)
    requires j.Object? && i <= |j.fields|
    decreases j, 0, |j.fields| - i
  {
    i == |j.fields|
      || (CanonicalKey(j.fields[i].key) && SnakeShaped(j.fields[i].value) && FieldsSnakeShaped(j, i + 1))
  }

  /** A key not yet present is appended. */
  lemma {:induction false} DictSetNew(fields: seq<Field>, k: string, v: Json)
    requires k !in Keys(fields)
    ensures DictSet(fields, k, v) == fields + [Field(k, v)]
    ensures Keys(fields + [Field(k, v)]) == Keys(fields) + [k]
  {
    if fields != [] {
      DictSetNew(fields[1..], k, v);
      assert fields + [Field(k, v)] == [fields[0]] + (fields[1..] + [Field(k, v)]);
    }
  }

  /** Snake to camel then camel to snake gives every snake-shaped value
      back; the nested dictionaries of the tests are of this shape. */
  lemma {:induction false} JsonRoundTrip(j: Json)
    requires SnakeShaped(j)
    ensures ConvertJson(j, SnakeToCamelCase).Success?
    ensures ConvertJson(ConvertJson(j, SnakeToCamelCase).value, CamelToSnakeCase) == Success(j)
    decreases j, 1
  {
    match j
    case Scalar(_) =>
    case Array(_) => ArrayRoundTrip(j);
    case Object(_) => ObjectRoundTrip(j);
  }

  lemma {:induction false} ArrayRoundTrip(j: Json)
    requires j.Array? && SnakeShaped(j)
    ensures ConvertJson(j, SnakeToCamelCase).Success?
    ensures ConvertJson(ConvertJson(j, SnakeToCamelCase).value, CamelToSnakeCase) == Success(j)
    decreases j, 0, |j.items| + 1
  {
    ItemsRoundTrip(j, 0);
    var there := ConvertItems(j, 0, SnakeToCamelCase).value;
    assert ConvertJson(j, SnakeToCamelCase) == Success(Array(there));
    assert j.items[0..] == j.items;
    ItemsBack(Array(there), j.items, 0);
  }

  lemma {:induction false} ObjectRoundTrip(j: Json)
    requires j.Object? && SnakeShaped(j)
    ensures ConvertJson(j, SnakeToCamelCase).Success?
    ensures ConvertJson(ConvertJson(j, SnakeToCamelCase).value, CamelToSnakeCase) == Success(j)
    decreases j, 0, |j.fields| + 1
  {
    FieldsRoundTrip(j, 0, []);
    var there := ConvertFields(j, 0, [], SnakeToCamelCase).value;
    assert ConvertJson(j, SnakeToCamelCase) == Success(Object(there));
    FieldsBack(j, Object(there), 0, []);
    assert j.fields[..0] == [];
  }

  /** Each of `there` converts back to the item at the same place. */
  predicate ConvertsBackTo(there: seq<Json>, items: seq<Json>)
  {
    |there| == |items|
      && forall n :: 0 <= n < |items| ==> ConvertJson(there[n], CamelToSnakeCase) == Success(items[n])
  }

  lemma {:induction false} ConvertsBackCons(head: Json, tail: seq<Json>, items: seq<Json>)
    requires items != [] && ConvertJson(head, CamelToSnakeCase) == Success(items[0])
    requires ConvertsBackTo(tail, items[1..])
    ensures ConvertsBackTo([head] + tail, items)
  {
    var there := [head] + tail;
    forall n | 0 < n < |items|
      ensures ConvertJson(there[n], CamelToSnakeCase) == Success(items[n])
    {
      assert there[n] == tail[n - 1];
      assert items[n] == items[1..][n - 1];
    }
  }

  lemma {:induction false} ItemsRoundTrip(j: Json, i: nat)
    requires j.Array? && i <= |j.items| && SnakeShaped(j)
    ensures ConvertItems(j, i, SnakeToCamelCase).Success?
    ensures ConvertsBackTo(ConvertItems(j, i, SnakeToCamelCase).value, j.items[i..])
    decreases j, 0, |j.items| - i
  {
    if i < |j.items| {
      JsonRoundTrip(j.items[i]);
      ItemsRoundTrip(j, i + 1);
      var head := ConvertJson(j.items[i], SnakeToCamelCase).value;
      var tail := ConvertItems(j, i + 1, SnakeToCamelCase).value;
      assert ConvertItems(j, i, SnakeToCamelCase).value == [head] + tail;
      assert j.items[i..][1..] == j.items[i + 1..];
      ConvertsBackCons(head, tail, j.items[i..]);
    }
  }

  lemma {:induction false} ItemsBack(there: Json, items: seq<Json>, i: nat)
    requires there.Array? && ConvertsBackTo(there.items, items) && i <= |items|
    ensures ConvertItems(there, i, CamelToSnakeCase) == Success(items[i..])
    decreases |items| - i
  {
    if i < |items| {
      ItemsBack(there, items, i + 1);
      assert ConvertJson(there.items[i], CamelToSnakeCase) == Success(items[i]);
      assert ConvertItems(there, i, CamelToSnakeCase) == Success([items[i]] + items[i + 1..]);
      assert items[i..] == [items[i]] + items[i + 1..];
    } else {
      assert items[i..] == [];
    }
  }

  /** Keys of the camel-cased entries so far are the camel forms of the
      keys before `i`. */
  ghost predicate CamelPrefix(j: Json, i: nat, acc: seq<Field>)
    requires j.Object? && i <= |j.fields|
  {
    |acc| == i
      && forall n :: 0 <= n < i ==>
           (CanonicalKey(j.fields[n].key)
            && acc[n].key == Camel(j.fields[n].key)
            && ConvertJson(acc[n].value, CamelToSnakeCase) == Success(j.fields[n].value))
  }

  lemma {:induction false} FieldsShapedAt(j: Json, i: nat, n: nat)
    requires j.Object? && i <= n < |j.fields| && FieldsSnakeShaped(j, i)
    ensures CanonicalKey(j.fields[n].key) && SnakeShaped(j.fields[n].value)
    decreases n - i
  {
    if i < n {
      FieldsShapedAt(j, i + 1, n);
    }
  }

  /** The camel form of the next key is not among the converted keys so
      far, because distinct canonical keys have distinct camel forms. */
  lemma {:induction false} CamelFresh(j: Json, i: nat, acc: seq<Field>)
    requires j.Object? && i < |j.fields| && DistinctKeys(j.fields)
    requires CamelPrefix(j, i, acc) && CanonicalKey(j.fields[i].key)
    ensures Camel(j.fields[i].key) !in Keys(acc)
  {
    var k := Camel(j.fields[i].key);
    KeysOf(acc);
    forall n | 0 <= n < i ensures acc[n].key != k {
      if acc[n].key == k {
        CamelInjective(j.fields[n].key, j.fields[i].key);
      }
    }
  }

  lemma {:induction false} CamelPrefixSnoc(j: Json, i: nat, acc: seq<Field>, v: Json)
    requires j.Object? && i < |j.fields| && CamelPrefix(j, i, acc)
    requires CanonicalKey(j.fields[i].key)
    requires ConvertJson(v, CamelToSnakeCase) == Success(j.fields[i].value)
    ensures CamelPrefix(j, i + 1, acc + [Field(Camel(j.fields[i].key), v)])
  {
    var acc' := acc + [Field(Camel(j.fields[i].key), v)];
    forall n | 0 <= n < i + 1
      ensures CanonicalKey(j.fields[n].key)
        && acc'[n].key == Camel(j.fields[n].key)
        && ConvertJson(acc'[n].value, CamelToSnakeCase) == Success(j.fields[n].value)
    {
      if n < i {
        assert acc'[n] == acc[n];
      }
    }
  }

  lemma {:induction false} FieldsRoundTrip(j: Json, i: nat, acc: seq<Field>)
    requires j.Object? && i <= |j.fields| && SnakeShaped(j)
    requires CamelPrefix(j, i, acc)
    ensures ConvertFields(j, i, acc, SnakeToCamelCase).Success?
    ensures CamelPrefix(j, |j.fields|, ConvertFields(j, i, acc, SnakeToCamelCase).value)
    decreases j, 0, |j.fields| - i
  {
    if i < |j.fields| {
      var f := j.fields[i];
      FieldsShapedAt(j, 0, i);
      CanonicalKeyRoundTrip(f.key);
      JsonRoundTrip(f.value);
      var k := Camel(f.key);
      var v := ConvertJson(f.value, SnakeToCamelCase).value;
      CamelFresh(j, i, acc);
      DictSetNew(acc, k, v);
      assert ConvertFields(j, i, acc, SnakeToCamelCase)
        == ConvertFields(j, i + 1, acc + [Field(k, v)], SnakeToCamelCase);
      CamelPrefixSnoc(j, i, acc, v);
      FieldsRoundTrip(j, i + 1, acc + [Field(k, v)]);
    }
  }

  lemma {:induction false} KeysOf(fields: seq<Field>)
    ensures |Keys(fields)| == |fields|
    ensures forall n :: 0 <= n < |fields| ==> Keys(fields)[n] == fields[n].key
  {
    if fields != [] {
      KeysOf(fields[1..]);
    }
  }

  lemma {:induction false} FieldsBack(j: Json, there: Json, i: nat, acc: seq<Field>)
    requires j.Object? && there.Object? && DistinctKeys(j.fields)
    requires CamelPrefix(j, |j.fields|, there.fields)
    requires i <= |j.fields| && acc == j.fields[..i]
    ensures ConvertFields(there, i, acc, CamelToSnakeCase) == Success(j.fields)
    decreases |j.fields| - i
  {
    if i < |j.fields| {
      var f := j.fields[i];
      CanonicalKeyRoundTrip(f.key);
      assert f.key !in Keys(acc) by {
        KeysOf(acc);
      }
      DictSetNew(acc, f.key, f.value);
      assert acc + [f] == j.fields[..i + 1];
      FieldsBack(j, there, i + 1, acc + [f]);
    } else {
      assert j.fields[..i] == j.fields;
    }
  }

  /** `convert_keys` with `snake_to_camel` and then `camel_to_snake` gives
      a snake-shaped value back. */
  lemma {:induction false} ConvertKeysRoundTrip(j: Json)
    requires SnakeShaped(j)
    ensures ConvertKeys(j, "snake_to_camel").Success?
    ensures ConvertKeys(ConvertKeys(j, "snake_to_camel").value, "camel_to_snake") == Success(j)
  {
    JsonRoundTrip(j);
  }

  /** A dictionary whose first key is not a valid key is rejected, in
      either direction. */
  lemma {:induction false} InvalidFirstKeyRejected(j: Json, c: Case)
    requires j.Object? && j.fields != [] && !ValidKey(j.fields[0].key)
    ensures ConvertJson(j, c) == Failure(InvalidKey)
  {
    assert ConvertFields(j, 0, [], c) == Failure(InvalidKey);
  }
}
