/** HTML to sections. Headings open sections, nested by level through a
    stack of open sections; the text and list blocks met between them
    become contents of the innermost open section. A text block is cut at
    the placeholders that stand for figures, tables and images prepared
    earlier, and each placeholder is replaced by the content it stands for. */
module ConvertHtmlToLumi {
  import opened Wrappers
  import opened Text
  import opened LumiDoc
  import opened HtmlTree
  import opened ImportTags
  import opened ConvertLumiSpans
  import opened ConvertListContent

  const TextTags: seq<string> := ["p", "code", "pre"]

  /** The placeholder markers; a placeholder is `[[LUMI_PLACEHOLDER_<uid>]]`. */
  const PlaceholderPrefix := "[[LUMI_PLACEHOLDER_"
  const PlaceholderSuffix := "]]"

  /** A block the converter turns into contents: a text tag or a list. */
  predicate IsContentTag(n: Node)
  {
    n.Element? && (n.name in TextTags || IsListTag(n.name))
  }

  // ---------------------------------------------------------------------
  // Headings
  // ---------------------------------------------------------------------

  /** The level of a heading element: its name is `h` followed by one or
      more digits, read as a decimal number. */
  function HeadingLevel(n: Node): Option<nat>
  {
    if n.Element? && |n.name| >= 2 && n.name[0] == 'h' && AllDigits(n.name[1..])
    then Some(DigitsValue(n.name[1..]))
    else None
  }

  /** `h` followed by the decimal digits of `k` is a heading of level `k`. */
  lemma {:induction false} HeadingOfLevel(k: nat, attrs: map<string, string>, children: seq<Node>)
    ensures HeadingLevel(Element("h" + NatToString(k), attrs, children)) == Some(k)
  {
    var name := "h" + NatToString(k);
    assert name[1..] == NatToString(k);
    NatToStringValue(k);
  }

  /** Names that start with `h` without digits after it are not headings. */
  lemma {:induction false} NotHeadings(attrs: map<string, string>, children: seq<Node>)
    ensures HeadingLevel(Element("h", attrs, children)).None?
    ensures HeadingLevel(Element("hr", attrs, children)).None?
    ensures HeadingLevel(Element("header", attrs, children)).None?
    ensures HeadingLevel(Element("h2a", attrs, children)).None?
  {
    assert !IsDigit("hr"[1]);
    assert !IsDigit("header"[1]);
    assert !IsDigit("h2a"[2]);
    assert "h2a"[1..][1] == "h2a"[2];
  }

  lemma {:induction false} ContentTagIsNoHeading(n: Node)
    requires IsContentTag(n)
    ensures HeadingLevel(n).None?
  {
    if n.name == "pre" {
      assert !IsDigit(n.name[1]);
    }
  }

  // ---------------------------------------------------------------------
  // The section tree and the stack of open sections
  // ---------------------------------------------------------------------

  function Level(s: LumiSection): int
  {
    s.heading.headingLevel
  }

  function NewSection(id: Id, level: int, text: string): LumiSection
  {
    LumiSection(id, Heading(level, text), [], [])
  }

  /** Every sub-section, at every depth, has a higher level than its parent. */
  predicate Nested(s: LumiSection)
    decreases s
  {
    forall c <- s.subSections :: Level(s) < Level(c) && Nested(c)
  }

  predicate AllNested(ss: seq<LumiSection>)
  {
    forall s <- ss :: Nested(s)
  }

  /** The levels along the rightmost path below `s`: `s`, its last
      sub-section, that one's last sub-section, and so on. */
  function SpineOf(s: LumiSection): (r: seq<int>)
    ensures |r| >= 1 && r[0] == Level(s)
    decreases s
  {
    if s.subSections != [] then
      [Level(s)] + SpineOf(s.subSections[|s.subSections| - 1])
    else [Level(s)]
  }

  /** The levels along the rightmost path of the forest: the sections
      new content would go to, outermost first. */
  function Spine(ss: seq<LumiSection>): seq<int>
  {
    if ss == [] then [] else SpineOf(ss[|ss| - 1])
  }

  /** `s` with `section` appended to the sub-sections of the section at
      `depth` on its rightmost path. */
  function AttachIn(s: LumiSection, depth: nat, section: LumiSection): LumiSection
    requires depth < |SpineOf(s)|
    decreases s
  {
    if depth == 0 then s.(subSections := s.subSections + [section])
    else
      var subs := s.subSections;
      s.(subSections := subs[..|subs| - 1] + [AttachIn(subs[|subs| - 1], depth - 1, section)])
  }

  /** The forest with `section` attached below the first `depth` sections of the
      rightmost path: a new root when `depth` is 0. */
  function Attach(ss: seq<LumiSection>, depth: nat, section: LumiSection): seq<LumiSection>
    requires depth <= |Spine(ss)|
  {
    if depth == 0 then ss + [section]
    else ss[..|ss| - 1] + [AttachIn(ss[|ss| - 1], depth - 1, section)]
  }

  /** `s` with `cs` appended to the contents of the deepest section on its
      rightmost path. */
  function AddToDeepest(s: LumiSection, cs: seq<LumiContent>): LumiSection
    decreases s
  {
    if s.subSections != [] then
      var subs := s.subSections;
      s.(subSections := subs[..|subs| - 1] + [AddToDeepest(subs[|subs| - 1], cs)])
    else s.(contents := s.contents + cs)
  }

  function AddToCurrent(ss: seq<LumiSection>, cs: seq<LumiContent>): seq<LumiSection>
    requires ss != []
  {
    ss[..|ss| - 1] + [AddToDeepest(ss[|ss| - 1], cs)]
  }

  /** The contents of the deepest section on the rightmost path. */
  function DeepestContents(s: LumiSection): seq<LumiContent>
    decreases s
  {
    if s.subSections != [] then
      DeepestContents(s.subSections[|s.subSections| - 1])
    else s.contents
  }

  /** The number of sections in a tree. */
  function Count(s: LumiSection): nat
    decreases s, 1
  {
    1 + CountAll(s.subSections)
  }

  function CountAll(ss: seq<LumiSection>): nat
    decreases ss, 0
  {
    if ss == [] then 0 else CountAll(ss[..|ss| - 1]) + Count(ss[|ss| - 1])
  }

  predicate Increasing(levels: seq<int>)
  {
    forall i, j :: 0 <= i < j < |levels| ==> levels[i] < levels[j]
  }

  /** How many open sections survive popping those whose level is at least
      `level`, from the innermost outwards. */
  function Kept(stack: seq<int>, level: int): (k: nat)
    ensures k <= |stack|
  {
    if stack == [] || stack[|stack| - 1] < level then |stack|
    else Kept(stack[..|stack| - 1], level)
  }

  /** On an increasing stack, popping while the top is at least `level`
      removes exactly the sections whose level is at least `level`. */
  lemma {:induction false} KeptSplits(stack: seq<int>, level: int)
    requires Increasing(stack)
    ensures forall i :: 0 <= i < Kept(stack, level) ==> stack[i] < level
    ensures forall i :: Kept(stack, level) <= i < |stack| ==> level <= stack[i]
  {
    if stack != [] && stack[|stack| - 1] >= level {
      KeptSplits(stack[..|stack| - 1], level);
    }
  }

  lemma {:induction false} SpineOfIncreasing(s: LumiSection)
    requires Nested(s)
    ensures Increasing(SpineOf(s))
    decreases s
  {
    if s.subSections != [] {
      var subs := s.subSections;
      var last := subs[|subs| - 1];
      assert last in subs;
      SpineOfIncreasing(last);
      var sp := SpineOf(s);
      assert sp == [Level(s)] + SpineOf(last);
      forall i, j | 0 <= i < j < |sp| ensures sp[i] < sp[j] {
        if i > 0 {
          assert sp[i] == SpineOf(last)[i - 1] && sp[j] == SpineOf(last)[j - 1];
        } else {
          assert SpineOf(last)[0] <= SpineOf(last)[j - 1];
        }
      }
    }
  }

  lemma {:induction false} SpineOfAttachIn(s: LumiSection, depth: nat, section: LumiSection)
    requires depth < |SpineOf(s)| && section.subSections == []
    ensures SpineOf(AttachIn(s, depth, section)) == SpineOf(s)[..depth + 1] + [Level(section)]
    decreases s
  {
    if depth > 0 {
      var subs := s.subSections;
      SpineOfAttachIn(subs[|subs| - 1], depth - 1, section);
    }
  }

  lemma {:induction false} SpineAttach(ss: seq<LumiSection>, depth: nat, section: LumiSection)
    requires depth <= |Spine(ss)| && section.subSections == []
    ensures Spine(Attach(ss, depth, section)) == Spine(ss)[..depth] + [Level(section)]
  {
    if depth > 0 {
      SpineOfAttachIn(ss[|ss| - 1], depth - 1, section);
    }
  }

  lemma {:induction false} NestedAttachIn(s: LumiSection, depth: nat, section: LumiSection)
    requires depth < |SpineOf(s)| && section.subSections == []
    requires Nested(s) && SpineOf(s)[depth] < Level(section)
    ensures Nested(AttachIn(s, depth, section))
    decreases s
  {
    if depth > 0 {
      var subs := s.subSections;
      var last := subs[|subs| - 1];
      assert last in subs;
      NestedAttachIn(last, depth - 1, section);
      var r := AttachIn(s, depth, section);
      assert r.subSections == subs[..|subs| - 1] + [AttachIn(last, depth - 1, section)];
      forall c | c in r.subSections ensures Level(s) < Level(c) && Nested(c) {
        if c !in subs[..|subs| - 1] {
          assert c == AttachIn(last, depth - 1, section);
        }
      }
    }
  }

  lemma {:induction false} NestedAttach(ss: seq<LumiSection>, depth: nat, section: LumiSection)
    requires depth <= |Spine(ss)| && section.subSections == []
    requires AllNested(ss) && (depth > 0 ==> Spine(ss)[depth - 1] < Level(section))
    ensures AllNested(Attach(ss, depth, section))
  {
    if depth > 0 {
      var last := ss[|ss| - 1];
      assert last in ss;
      NestedAttachIn(last, depth - 1, section);
      assert Attach(ss, depth, section) == ss[..|ss| - 1] + [AttachIn(last, depth - 1, section)];
    }
  }

  lemma {:induction false} CountAttachIn(s: LumiSection, depth: nat, section: LumiSection)
    requires depth < |SpineOf(s)| && section.subSections == []
    ensures Count(AttachIn(s, depth, section)) == Count(s) + 1
    decreases s
  {
    var r := AttachIn(s, depth, section);
    var subs := s.subSections;
    assert Count(section) == 1;
    if depth == 0 {
      assert r.subSections[..|subs|] == subs;
    } else {
      CountAttachIn(subs[|subs| - 1], depth - 1, section);
      assert r.subSections[..|subs| - 1] == subs[..|subs| - 1];
    }
  }

  lemma {:induction false} CountAttach(ss: seq<LumiSection>, depth: nat, section: LumiSection)
    requires depth <= |Spine(ss)| && section.subSections == []
    ensures CountAll(Attach(ss, depth, section)) == CountAll(ss) + 1
  {
    var r := Attach(ss, depth, section);
    if depth == 0 {
      assert Count(section) == 1;
      assert r[..|ss|] == ss;
    } else {
      CountAttachIn(ss[|ss| - 1], depth - 1, section);
      assert r[..|ss| - 1] == ss[..|ss| - 1];
    }
  }

  /** Attaching a section never changes the first root's heading; the
      first section of an empty forest becomes its only root. */
  lemma {:induction false} AttachKeepsFirst(ss: seq<LumiSection>, depth: nat, section: LumiSection)
    requires depth <= |Spine(ss)|
    ensures ss == [] ==> Attach(ss, depth, section) == [section]
    ensures ss != [] ==> Attach(ss, depth, section)[0].heading == ss[0].heading
  {
    if ss != [] && depth > 0 && |ss| == 1 {
      assert Attach(ss, depth, section)[0] == AttachIn(ss[0], depth - 1, section);
    }
  }

  /** Adding contents changes neither the shape nor the levels of the tree,
      and extends exactly the deepest section's contents. */
  lemma {:induction false} AddToDeepestKeepsShape(s: LumiSection, cs: seq<LumiContent>)
    ensures SpineOf(AddToDeepest(s, cs)) == SpineOf(s)
    ensures Count(AddToDeepest(s, cs)) == Count(s)
    ensures Nested(s) ==> Nested(AddToDeepest(s, cs))
    ensures DeepestContents(AddToDeepest(s, cs)) == DeepestContents(s) + cs
    ensures AddToDeepest(s, cs).heading == s.heading
    decreases s
  {
    if s.subSections != [] {
      var subs := s.subSections;
      var last := subs[|subs| - 1];
      assert last in subs;
      AddToDeepestKeepsShape(last, cs);
      var r := AddToDeepest(s, cs);
      assert r.subSections[..|subs| - 1] == subs[..|subs| - 1];
      if Nested(s) {
        forall c | c in r.subSections ensures Level(s) < Level(c) && Nested(c) {
          if c !in subs[..|subs| - 1] {
            assert c == AddToDeepest(last, cs);
          }
        }
      }
    }
  }

  lemma {:induction false} AddToCurrentKeepsShape(ss: seq<LumiSection>, cs: seq<LumiContent>)
    requires ss != []
    ensures Spine(AddToCurrent(ss, cs)) == Spine(ss)
    ensures CountAll(AddToCurrent(ss, cs)) == CountAll(ss)
    ensures AllNested(ss) ==> AllNested(AddToCurrent(ss, cs))
    ensures AddToCurrent(ss, cs)[0].heading == ss[0].heading
  {
    var last := ss[|ss| - 1];
    assert last in ss;
    AddToDeepestKeepsShape(last, cs);
    var r := AddToCurrent(ss, cs);
    assert r[..|ss| - 1] == ss[..|ss| - 1];
  }

  // ---------------------------------------------------------------------
  // The sections as a function of the headings met, in order
  // ---------------------------------------------------------------------

  /** A section as it is opened, in document order: its id, heading and
      the contents added while it was the current section. */
  datatype SectionEntry = SectionEntry(id: Id, level: int, text: string, contents: seq<LumiContent>)

  /** The first index from `i` whose entry has a level of at most `level`
      (the end of the entries when there is none). */
  function SubtreeEnd(es: seq<SectionEntry>, i: nat, level: int): (k: nat)
    requires i <= |es|
    ensures i <= k <= |es|
    decreases |es| - i
  {
    if i == |es| || es[i].level <= level then i else SubtreeEnd(es, i + 1, level)
  }

  /** The section tree of the entries: the first entry's sub-sections are
      the entries after it up to the next one whose level is not higher,
      and the forest goes on from there. */
  function Forest(es: seq<SectionEntry>): seq<LumiSection>
    decreases |es|
  {
    if es == [] then []
    else
      var k := SubtreeEnd(es, 1, es[0].level);
      [LumiSection(es[0].id, Heading(es[0].level, es[0].text), es[0].contents, Forest(es[1..k]))]
      + Forest(es[k..])
  }

  /** `es` with `cs` appended to the contents of its last entry. */
  function AddLast(es: seq<SectionEntry>, cs: seq<LumiContent>): seq<SectionEntry>
    requires es != []
  {
    var e := es[|es| - 1];
    es[..|es| - 1] + [e.(contents := e.contents + cs)]
  }

  lemma {:induction false} SubtreeEndIs(es: seq<SectionEntry>, i: nat, level: int, k: nat)
    requires i <= k <= |es|
    requires forall j :: i <= j < k ==> es[j].level > level
    requires k < |es| ==> es[k].level <= level
    ensures SubtreeEnd(es, i, level) == k
    decreases |es| - i
  {
    if i < k {
      SubtreeEndIs(es, i + 1, level, k);
    }
  }

  lemma {:induction false} SubtreeEndFacts(es: seq<SectionEntry>, i: nat, level: int)
    requires i <= |es|
    ensures forall j :: i <= j < SubtreeEnd(es, i, level) ==> es[j].level > level
    ensures SubtreeEnd(es, i, level) < |es| ==> es[SubtreeEnd(es, i, level)].level <= level
    decreases |es| - i
  {
    if i < |es| && es[i].level > level {
      SubtreeEndFacts(es, i + 1, level);
    }
  }

  function SectionOf(e: SectionEntry, subs: seq<LumiSection>): LumiSection
  {
    LumiSection(e.id, Heading(e.level, e.text), e.contents, subs)
  }

  lemma {:induction false} ForestEmpty(es: seq<SectionEntry>)
    ensures Forest(es) == [] <==> es == []
  {
  }

  /** A forest after a first root has the same rightmost path, and
      attaching to it leaves that root alone. */
  lemma {:induction false} AttachCons(r: LumiSection, ss: seq<LumiSection>, depth: nat, section: LumiSection)
    requires ss != [] && depth <= |Spine(ss)|
    ensures Spine([r] + ss) == Spine(ss)
    ensures Attach([r] + ss, depth, section) == [r] + Attach(ss, depth, section)
  {
    var all := [r] + ss;
    assert all[|all| - 1] == ss[|ss| - 1];
    if depth > 0 {
      assert all[..|all| - 1] == [r] + ss[..|ss| - 1];
    }
  }

  lemma {:induction false} SpineOfSubs(s: LumiSection)
    ensures SpineOf(s) == [Level(s)] + Spine(s.subSections)
  {
  }

  lemma {:induction false} AttachInSubs(s: LumiSection, depth: nat, section: LumiSection)
    requires depth <= |Spine(s.subSections)|
    ensures depth < |SpineOf(s)|
    ensures AttachIn(s, depth, section) == s.(subSections := Attach(s.subSections, depth, section))
  {
    SpineOfSubs(s);
  }

  lemma {:induction false} KeptCons(x: int, stack: seq<int>, level: int)
    requires x < level
    ensures Kept([x] + stack, level) == 1 + Kept(stack, level)
    decreases |stack|
  {
    if stack != [] && stack[|stack| - 1] >= level {
      assert ([x] + stack)[..|stack|] == [x] + stack[..|stack| - 1];
      KeptCons(x, stack[..|stack| - 1], level);
    }
  }

  lemma {:induction false} KeptNone(stack: seq<int>, level: int)
    requires forall i :: 0 <= i < |stack| ==> level <= stack[i]
    ensures Kept(stack, level) == 0
    decreases |stack|
  {
    if stack != [] {
      KeptNone(stack[..|stack| - 1], level);
    }
  }

  /** The rightmost path of the forest of `es`, split on whether the first
      entry's tree takes all of `es`. */
  lemma {:induction false} ForestSpine(es: seq<SectionEntry>)
    requires es != []
    ensures var k := SubtreeEnd(es, 1, es[0].level);
      Spine(Forest(es)) == if k < |es| then Spine(Forest(es[k..])) else [es[0].level] + Spine(Forest(es[1..]))
  {
    var k := SubtreeEnd(es, 1, es[0].level);
    if k < |es| {
      ForestSpineRest(es, k);
    } else {
      ForestSpineWhole(es);
    }
  }

  lemma {:induction false} ForestSpineRest(es: seq<SectionEntry>, k: nat)
    requires es != [] && k == SubtreeEnd(es, 1, es[0].level) && k < |es|
    ensures Spine(Forest(es)) == Spine(Forest(es[k..]))
  {
    var root := SectionOf(es[0], Forest(es[1..k]));
    ForestUnfold(es);
    ForestEmpty(es[k..]);
    AttachCons(root, Forest(es[k..]), 0, root);
  }

  lemma {:induction false} ForestSpineWhole(es: seq<SectionEntry>)
    requires es != [] && SubtreeEnd(es, 1, es[0].level) == |es|
    ensures Spine(Forest(es)) == [es[0].level] + Spine(Forest(es[1..]))
  {
    var root := SectionOf(es[0], Forest(es[1..]));
    ForestUnfold(es);
    assert es[|es|..] == [];
    assert es[1..|es|] == es[1..];
    assert Forest(es) == [root];
    SpineOfSubs(root);
  }

  lemma {:induction false} ForestUnfold(es: seq<SectionEntry>)
    requires es != []
    ensures var k := SubtreeEnd(es, 1, es[0].level);
      Forest(es) == [SectionOf(es[0], Forest(es[1..k]))] + Forest(es[k..])
  {
  }

  /** The levels on the rightmost path are levels of entries. */
  lemma {:induction false} SpineAtLeast(es: seq<SectionEntry>, m: int)
    requires forall i :: 0 <= i < |es| ==> m <= es[i].level
    ensures forall i :: 0 <= i < |Spine(Forest(es))| ==> m <= Spine(Forest(es))[i]
    decreases |es|
  {
    if es != [] {
      var k := SubtreeEnd(es, 1, es[0].level);
      ForestSpine(es);
      if k < |es| {
        SpineAtLeast(es[k..], m);
      } else {
        SpineAtLeast(es[1..], m);
      }
    }
  }

  /** Opening a section for `e` adds it where the stack of open sections
      puts it: below the deepest open section of a lower level, or as a
      new root. */
  lemma {:induction false} ForestSnoc(es: seq<SectionEntry>, e: SectionEntry)
    requires e.contents == []
    ensures Forest(es + [e])
      == Attach(Forest(es), Kept(Spine(Forest(es)), e.level), NewSection(e.id, e.level, e.text))
    decreases |es|
  {
    if es == [] {
      assert Forest([e]) == [NewSection(e.id, e.level, e.text)] + Forest([e][1..]);
      assert es + [e] == [e];
    } else {
      var k := SubtreeEnd(es, 1, es[0].level);
      if k < |es| {
        ForestSnoc(es[k..], e);
        SnocAfterFirstTree(es, e, k);
      } else if e.level <= es[0].level {
        SnocNewRoot(es, e);
      } else {
        ForestSnoc(es[1..], e);
        SnocInFirstTree(es, e);
      }
    }
  }

  lemma {:induction false} SnocAfterFirstTree(es: seq<SectionEntry>, e: SectionEntry, k: nat)
    requires es != [] && k == SubtreeEnd(es, 1, es[0].level) && k < |es|
    requires Forest(es[k..] + [e])
      == Attach(Forest(es[k..]), Kept(Spine(Forest(es[k..])), e.level), NewSection(e.id, e.level, e.text))
    ensures Forest(es + [e])
      == Attach(Forest(es), Kept(Spine(Forest(es)), e.level), NewSection(e.id, e.level, e.text))
  {
    var all := es + [e];
    var l0 := es[0].level;
    SubtreeEndFacts(es, 1, l0);
    SubtreeEndIs(all, 1, l0, k);
    assert all[1..k] == es[1..k];
    assert all[k..] == es[k..] + [e];
    ForestUnfold(es);
    ForestUnfold(all);
    ForestSpineRest(es, k);
    ForestEmpty(es[k..]);
    var root := SectionOf(es[0], Forest(es[1..k]));
    AttachCons(root, Forest(es[k..]), Kept(Spine(Forest(es[k..])), e.level), NewSection(e.id, e.level, e.text));
  }

  lemma {:induction false} SnocNewRoot(es: seq<SectionEntry>, e: SectionEntry)
    requires es != [] && SubtreeEnd(es, 1, es[0].level) == |es| && e.level <= es[0].level
    requires e.contents == []
    ensures Forest(es + [e])
      == Attach(Forest(es), Kept(Spine(Forest(es)), e.level), NewSection(e.id, e.level, e.text))
  {
    SnocNewRootBuilt(es, e);
    SnocNewRootKept(es, e);
  }

  /** An entry not below the first one starts a tree of its own after it. */
  lemma {:induction false} SnocNewRootBuilt(es: seq<SectionEntry>, e: SectionEntry)
    requires es != [] && SubtreeEnd(es, 1, es[0].level) == |es| && e.level <= es[0].level
    requires e.contents == []
    ensures Forest(es + [e]) == Forest(es) + [NewSection(e.id, e.level, e.text)]
  {
    var all := es + [e];
    var l0 := es[0].level;
    SubtreeEndFacts(es, 1, l0);
    SubtreeEndIs(all, 1, l0, |es|);
    assert all[1..|es|] == es[1..];
    assert all[|es|..] == [e];
    ForestUnfold(es);
    ForestUnfold(all);
    assert es[|es|..] == [] && es[1..|es|] == es[1..];
    assert Forest([e]) == [NewSection(e.id, e.level, e.text)] + Forest([e][1..]);
  }

  /** Such an entry pops the whole rightmost path. */
  lemma {:induction false} SnocNewRootKept(es: seq<SectionEntry>, e: SectionEntry)
    requires es != [] && SubtreeEnd(es, 1, es[0].level) == |es| && e.level <= es[0].level
    ensures Kept(Spine(Forest(es)), e.level) == 0
  {
    SubtreeEndFacts(es, 1, es[0].level);
    ForestSpineWhole(es);
    SpineAtLeast(es[1..], es[0].level);
    KeptNone(Spine(Forest(es)), e.level);
  }

  lemma {:induction false} SnocInFirstTree(es: seq<SectionEntry>, e: SectionEntry)
    requires es != [] && SubtreeEnd(es, 1, es[0].level) == |es| && e.level > es[0].level
    requires Forest(es[1..] + [e])
      == Attach(Forest(es[1..]), Kept(Spine(Forest(es[1..])), e.level), NewSection(e.id, e.level, e.text))
    ensures Forest(es + [e])
      == Attach(Forest(es), Kept(Spine(Forest(es)), e.level), NewSection(e.id, e.level, e.text))
  {
    SnocInFirstTreeBuilt(es, e);
    SnocInFirstTreeAttached(es, e);
  }

  /** The forest with `e` appended is one tree whose sub-sections have `e`
      attached. */
  lemma {:induction false} SnocInFirstTreeBuilt(es: seq<SectionEntry>, e: SectionEntry)
    requires es != [] && SubtreeEnd(es, 1, es[0].level) == |es| && e.level > es[0].level
    requires Forest(es[1..] + [e])
      == Attach(Forest(es[1..]), Kept(Spine(Forest(es[1..])), e.level), NewSection(e.id, e.level, e.text))
    ensures Forest(es + [e])
      == [SectionOf(es[0], Attach(Forest(es[1..]), Kept(Spine(Forest(es[1..])), e.level), NewSection(e.id, e.level, e.text)))]
  {
    var all := es + [e];
    SnocStaysInFirstTree(es, e);
    assert all[1..] == es[1..] + [e];
    ForestOneTree(all);
  }

  /** Attaching `e` to the forest of `es`, which is one tree, attaches it
      in that tree's sub-sections. */
  lemma {:induction false} SnocInFirstTreeAttached(es: seq<SectionEntry>, e: SectionEntry)
    requires es != [] && SubtreeEnd(es, 1, es[0].level) == |es| && e.level > es[0].level
    ensures Kept(Spine(Forest(es)), e.level) <= |Spine(Forest(es))|
    ensures Attach(Forest(es), Kept(Spine(Forest(es)), e.level), NewSection(e.id, e.level, e.text))
      == [SectionOf(es[0], Attach(Forest(es[1..]), Kept(Spine(Forest(es[1..])), e.level), NewSection(e.id, e.level, e.text)))]
  {
    var subs := Forest(es[1..]);
    var depth := Kept(Spine(subs), e.level);
    ForestOneTree(es);
    ForestSpineWhole(es);
    KeptCons(es[0].level, Spine(subs), e.level);
    AttachOneRoot(SectionOf(es[0], subs), depth, NewSection(e.id, e.level, e.text));
  }

  /** Attaching below the only root attaches in its sub-sections. */
  lemma {:induction false} AttachOneRoot(root: LumiSection, depth: nat, section: LumiSection)
    requires depth <= |Spine(root.subSections)|
    ensures depth + 1 <= |Spine([root])|
    ensures Attach([root], depth + 1, section) == [root.(subSections := Attach(root.subSections, depth, section))]
  {
    AttachInSubs(root, depth, section);
  }

  /** An entry deeper than the first one stays in the first tree. */
  lemma {:induction false} SnocStaysInFirstTree(es: seq<SectionEntry>, e: SectionEntry)
    requires es != [] && SubtreeEnd(es, 1, es[0].level) == |es| && e.level > es[0].level
    ensures (es + [e])[0] == es[0]
    ensures SubtreeEnd(es + [e], 1, es[0].level) == |es| + 1
  {
    var all := es + [e];
    SubtreeEndFacts(es, 1, es[0].level);
    SubtreeEndIs(all, 1, es[0].level, |all|);
  }

  /** Adding contents goes to the last entry, which heads the deepest
      section on the rightmost path. */
  lemma {:induction false} ForestAddLast(es: seq<SectionEntry>, cs: seq<LumiContent>)
    requires es != []
    ensures Forest(es) != []
    ensures Forest(AddLast(es, cs)) == AddToCurrent(Forest(es), cs)
    decreases |es|
  {
    ForestEmpty(es);
    var k := SubtreeEnd(es, 1, es[0].level);
    if k < |es| {
      ForestAddLast(es[k..], cs);
      AddLastAfterFirstTree(es, cs, k);
    } else if |es| == 1 {
      var e := es[0];
      assert AddLast(es, cs) == [e.(contents := e.contents + cs)];
      assert Forest([e.(contents := e.contents + cs)]) == [SectionOf(e.(contents := e.contents + cs), [])] + Forest([]);
      assert Forest(es) == [SectionOf(e, [])] + Forest([]);
    } else {
      ForestAddLast(es[1..], cs);
      AddLastInFirstTree(es, cs);
    }
  }

  /** Appending contents leaves the levels, hence the tree boundaries. */
  lemma {:induction false} AddLastLevels(es: seq<SectionEntry>, cs: seq<LumiContent>, i: nat)
    requires es != [] && i <= |es|
    ensures |AddLast(es, cs)| == |es|
    ensures forall j :: 0 <= j < |es| ==> AddLast(es, cs)[j].level == es[j].level
    ensures SubtreeEnd(AddLast(es, cs), i, es[0].level) == SubtreeEnd(es, i, es[0].level)
  {
    var l0 := es[0].level;
    SubtreeEndFacts(es, i, l0);
    SubtreeEndIs(AddLast(es, cs), i, l0, SubtreeEnd(es, i, l0));
  }

  lemma {:induction false} AddToCurrentCons(r: LumiSection, ss: seq<LumiSection>, cs: seq<LumiContent>)
    requires ss != []
    ensures AddToCurrent([r] + ss, cs) == [r] + AddToCurrent(ss, cs)
  {
    var all := [r] + ss;
    assert all[..|all| - 1] == [r] + ss[..|ss| - 1];
  }

  lemma {:induction false} AddLastAfterFirstTree(es: seq<SectionEntry>, cs: seq<LumiContent>, k: nat)
    requires es != [] && k == SubtreeEnd(es, 1, es[0].level) && k < |es|
    requires Forest(es[k..]) != []
    requires Forest(AddLast(es[k..], cs)) == AddToCurrent(Forest(es[k..]), cs)
    ensures Forest(AddLast(es, cs)) == AddToCurrent(Forest(es), cs)
  {
    var added := AddLast(es, cs);
    AddLastLevels(es, cs, 1);
    assert added[0] == es[0];
    assert added[1..k] == es[1..k];
    assert added[k..] == AddLast(es[k..], cs);
    ForestUnfold(es);
    ForestUnfold(added);
    AddToCurrentCons(SectionOf(es[0], Forest(es[1..k])), Forest(es[k..]), cs);
  }

  lemma {:induction false} AddLastInFirstTree(es: seq<SectionEntry>, cs: seq<LumiContent>)
    requires |es| > 1 && SubtreeEnd(es, 1, es[0].level) == |es|
    requires Forest(es[1..]) != []
    requires Forest(AddLast(es[1..], cs)) == AddToCurrent(Forest(es[1..]), cs)
    ensures Forest(AddLast(es, cs)) == AddToCurrent(Forest(es), cs)
  {
    var added := AddLast(es, cs);
    ForestOneTree(es);
    AddLastLevels(es, cs, 1);
    AddLastTail(es, cs);
    ForestOneTree(added);
    AddToCurrentOneRoot(es[0], Forest(es[1..]), cs);
  }

  lemma {:induction false} AddLastTail(es: seq<SectionEntry>, cs: seq<LumiContent>)
    requires |es| > 1
    ensures AddLast(es, cs)[0] == es[0] && AddLast(es, cs)[1..] == AddLast(es[1..], cs)
  {
  }

  lemma {:induction false} AddToCurrentOneRoot(e: SectionEntry, subs: seq<LumiSection>, cs: seq<LumiContent>)
    requires subs != []
    ensures AddToCurrent([SectionOf(e, subs)], cs) == [SectionOf(e, AddToCurrent(subs, cs))]
  {
  }

  /** Entries whose first tree takes them all make one root. */
  lemma {:induction false} ForestOneTree(es: seq<SectionEntry>)
    requires es != [] && SubtreeEnd(es, 1, es[0].level) == |es|
    ensures Forest(es) == [SectionOf(es[0], Forest(es[1..]))]
  {
    ForestUnfold(es);
    assert es[|es|..] == [] && es[1..|es|] == es[1..];
  }

  /** The sections built so far, as a forest of root sections. The stack of
      open sections is always the rightmost path of that forest (a section
      section is appended as the last child of the section it is attached
      to and then pushed), so each stack entry stands for the section at
      that depth of the path and is kept as that section's level. */
  class SectionBuilder {
    var roots: seq<LumiSection>
    var stack: seq<int>
    /** The sections opened so far, in order, with the contents each got. */
    ghost var entries: seq<SectionEntry>

    ghost predicate Valid()
      reads this
    {
      stack == Spine(roots) && AllNested(roots)
      && roots == Forest(entries) && (roots == [] <==> entries == [])
    }

    constructor()
      ensures roots == [] && stack == [] && entries == [] && Valid()
    {
      roots := [];
      stack := [];
      entries := [];
    }

    /** A heading of `level`: pop every open section whose level is at
        least `level`, attach the new section below the remaining top (or
        as a new root), and push it. */
    method OpenSection(level: int, text: string, id: Id)
      requires Valid()
      modifies this
      ensures Valid()
      ensures roots == Attach(old(roots), Kept(old(stack), level), NewSection(id, level, text))
      ensures stack == old(stack)[..Kept(old(stack), level)] + [level]
      ensures entries == old(entries) + [SectionEntry(id, level, text, [])]
      ensures CountAll(roots) == CountAll(old(roots)) + 1
      ensures old(roots) == [] ==> roots == [NewSection(id, level, text)]
      ensures old(roots) != [] ==> roots[0].heading == old(roots)[0].heading
    {
      if roots != [] {
        SpineOfIncreasing(roots[|roots| - 1]);
      }
      KeptSplits(stack, level);
      while stack != [] && stack[|stack| - 1] >= level
        invariant stack == old(stack)[..|stack|]
        invariant Kept(stack, level) == Kept(old(stack), level)
        invariant roots == old(roots) && entries == old(entries)
        decreases |stack|
      {
        assert stack[..|stack| - 1] == old(stack)[..|stack| - 1];
        stack := stack[..|stack| - 1];
      }
      assert Kept(stack, level) == |stack|;
      var section := NewSection(id, level, text);
      ForestSnoc(entries, SectionEntry(id, level, text, []));
      ForestEmpty(entries + [SectionEntry(id, level, text, [])]);
      SpineAttach(roots, |stack|, section);
      NestedAttach(roots, |stack|, section);
      CountAttach(roots, |stack|, section);
      AttachKeepsFirst(roots, |stack|, section);
      roots := Attach(roots, |stack|, section);
      stack := stack + [level];
      entries := entries + [SectionEntry(id, level, text, [])];
    }

    /** Appends `cs` to the contents of the section on top of the stack. */
    method AddContents(cs: seq<LumiContent>)
      requires Valid() && roots != []
      modifies this
      ensures Valid()
      ensures roots == AddToCurrent(old(roots), cs)
      ensures entries == AddLast(old(entries), cs)
      ensures stack == old(stack)
      ensures CountAll(roots) == CountAll(old(roots))
      ensures roots != [] && roots[0].heading == old(roots)[0].heading
    {
      AddToCurrentKeepsShape(roots, cs);
      ForestAddLast(entries, cs);
      roots := AddToCurrent(roots, cs);
      entries := AddLast(entries, cs);
    }
  }

  lemma {:induction false} SpineEmpty(ss: seq<LumiSection>)
    ensures Spine(ss) == [] <==> ss == []
  {
  }

  // ---------------------------------------------------------------------
  // Which blocks are converted
  // ---------------------------------------------------------------------

  /** A node and all of its descendants. */
  function Marked(n: Node): set<Node>
  {
    {n} + set d | d in Descendants(n)
  }

  /** The walk positions of the blocks converted, scanning from `i` with the
      nodes already `visited`: a content tag is converted unless it is in
      the visited set, and then it and its descendants join the set. The
      set compares nodes by value. */
  function ProcessedFrom(walk: seq<Node>, i: nat, visited: set<Node>, acc: seq<nat>): seq<nat>
    decreases |walk| - i
  {
    if i >= |walk| then acc
    else if HeadingLevel(walk[i]).None? && walk[i] !in visited && IsContentTag(walk[i]) then
      ProcessedFrom(walk, i + 1, visited + Marked(walk[i]), acc + [i])
    else ProcessedFrom(walk, i + 1, visited, acc)
  }

  function Processed(walk: seq<Node>): seq<nat>
  {
    ProcessedFrom(walk, 0, {}, [])
  }

  predicate ConvertedOnce(walk: seq<Node>, p: seq<nat>)
  {
    (forall a :: 0 <= a < |p| ==> p[a] < |walk| && IsContentTag(walk[p[a]]))
    && (forall a, b :: 0 <= a < b < |p| ==> p[a] < p[b] && walk[p[b]] !in Marked(walk[p[a]]))
  }

  lemma {:induction false} ProcessedFromOnce(walk: seq<Node>, i: nat, visited: set<Node>, acc: seq<nat>)
    requires ConvertedOnce(walk, acc)
    requires forall a :: 0 <= a < |acc| ==> acc[a] < i && Marked(walk[acc[a]]) <= visited
    ensures ConvertedOnce(walk, ProcessedFrom(walk, i, visited, acc))
    decreases |walk| - i
  {
    if i < |walk| {
      if HeadingLevel(walk[i]).None? && walk[i] !in visited && IsContentTag(walk[i]) {
        var acc' := acc + [i];
        var visited' := visited + Marked(walk[i]);
        assert walk[i] in Marked(walk[i]);
        forall a, b | 0 <= a < b < |acc'| ensures acc'[a] < acc'[b] && walk[acc'[b]] !in Marked(walk[acc'[a]]) {
          if b == |acc| {
            assert walk[acc'[b]] !in visited;
          }
        }
        ProcessedFromOnce(walk, i + 1, visited', acc');
      } else {
        ProcessedFromOnce(walk, i + 1, visited, acc);
      }
    }
  }

  /** Each converted block is a content tag, converted once, and never one
      equal to an earlier converted block or to one of its descendants. */
  lemma {:induction false} ProcessedOnce(walk: seq<Node>)
    ensures ConvertedOnce(walk, Processed(walk))
  {
    ProcessedFromOnce(walk, 0, {}, []);
  }

  /** The conversion as evidently intended: a block is skipped only when it
      lies inside a block already converted, which in the walk is the
      stretch right after that block (see `HtmlTree.WalkDescendantsFollow`). */
  function ProcessedByPositionFrom(walk: seq<Node>, i: nat, skipUntil: nat, acc: seq<nat>): seq<nat>
    decreases |walk| - i
  {
    if i >= |walk| then acc
    else if IsContentTag(walk[i]) && skipUntil <= i then
      ProcessedByPositionFrom(walk, i + 1, i + 1 + |Descendants(walk[i])|, acc + [i])
    else ProcessedByPositionFrom(walk, i + 1, skipUntil, acc)
  }

  function ProcessedByPosition(walk: seq<Node>): seq<nat>
  {
    ProcessedByPositionFrom(walk, 0, 0, [])
  }

  /** Position `i` lies within the descendants of a converted block. */
  predicate Covered(walk: seq<Node>, p: seq<nat>, i: nat)
  {
    exists a :: 0 <= a < |p| && p[a] < |walk| && p[a] < i <= p[a] + |Descendants(walk[p[a]])|
  }

  predicate ConvertedByPosition(walk: seq<Node>, p: seq<nat>)
  {
    (forall a :: 0 <= a < |p| ==> p[a] < |walk| && IsContentTag(walk[p[a]]))
    && (forall a, b :: 0 <= a < b < |p| ==> p[a] + |Descendants(walk[p[a]])| < p[b])
  }

  /** The blocks converted by position never overlap: the scan's state
      before position `i`, where `skipUntil` lies past every block so far. */
  predicate Disjoint(walk: seq<Node>, skipUntil: nat, acc: seq<nat>)
  {
    ConvertedByPosition(walk, acc)
    && forall a :: 0 <= a < |acc| ==> acc[a] + |Descendants(walk[acc[a]])| < skipUntil
  }

  lemma {:induction false} DisjointTaken(walk: seq<Node>, i: nat, skipUntil: nat, acc: seq<nat>)
    requires i < |walk| && IsContentTag(walk[i]) && skipUntil <= i
    requires Disjoint(walk, skipUntil, acc)
    ensures Disjoint(walk, i + 1 + |Descendants(walk[i])|, acc + [i])
  {
    var acc' := acc + [i];
    var skip' := i + 1 + |Descendants(walk[i])|;
    forall a | 0 <= a < |acc'| ensures acc'[a] < |walk| && IsContentTag(walk[acc'[a]]) {
      if a < |acc| { assert acc'[a] == acc[a]; }
    }
    forall a, b | 0 <= a < b < |acc'| ensures acc'[a] + |Descendants(walk[acc'[a]])| < acc'[b] {
      assert acc'[a] == acc[a];
      if b < |acc| { assert acc'[b] == acc[b]; }
    }
    forall a | 0 <= a < |acc'| ensures acc'[a] + |Descendants(walk[acc'[a]])| < skip' {
      if a < |acc| { assert acc'[a] == acc[a]; }
    }
  }

  lemma {:induction false} ProcessedByPositionFromDisjoint(walk: seq<Node>, i: nat, skipUntil: nat, acc: seq<nat>,
                                                          p: seq<nat>)
    requires i <= |walk| && Disjoint(walk, skipUntil, acc)
    requires p == ProcessedByPositionFrom(walk, i, skipUntil, acc)
    ensures ConvertedByPosition(walk, p)
    decreases |walk| - i
  {
    if i < |walk| {
      var n := walk[i];
      if IsContentTag(n) && skipUntil <= i {
        DisjointTaken(walk, i, skipUntil, acc);
        ProcessedByPositionFromDisjoint(walk, i + 1, i + 1 + |Descendants(n)|, acc + [i], p);
      } else {
        ProcessedByPositionFromDisjoint(walk, i + 1, skipUntil, acc, p);
      }
    }
  }

  /** Every content tag before position `i` is converted or covered. */
  predicate AllCovered(walk: seq<Node>, p: seq<nat>, i: nat)
    requires i <= |walk|
  {
    forall k {:trigger Covered(walk, p, k)} :: 0 <= k < i && IsContentTag(walk[k]) ==> k in p || Covered(walk, p, k)
  }

  lemma {:induction false} CoveredGrows(walk: seq<Node>, p: seq<nat>, x: nat, k: nat)
    requires Covered(walk, p, k)
    ensures Covered(walk, p + [x], k)
  {
    var a :| 0 <= a < |p| && p[a] < |walk| && p[a] < k <= p[a] + |Descendants(walk[p[a]])|;
    assert (p + [x])[a] == p[a];
  }

  /** The state of the scan by position before position `i`: every block
      converted so far lies before `i`, `skipUntil` is the end of the last
      one's descendants, and every content tag before `i` is converted or
      covered. */
  predicate ScanState(walk: seq<Node>, i: nat, skipUntil: nat, acc: seq<nat>)
  {
    i <= |walk|
    && (forall a :: 0 <= a < |acc| ==> acc[a] < i)
    && (acc != [] ==> acc[|acc| - 1] < |walk| && skipUntil == acc[|acc| - 1] + 1 + |Descendants(walk[acc[|acc| - 1]])|)
    && (acc == [] ==> skipUntil == 0)
    && AllCovered(walk, acc, i)
  }

  lemma {:induction false} CoveredTaken(walk: seq<Node>, i: nat, skipUntil: nat, acc: seq<nat>)
    requires i < |walk| && ScanState(walk, i, skipUntil, acc)
    ensures ScanState(walk, i + 1, i + 1 + |Descendants(walk[i])|, acc + [i])
  {
    var acc' := acc + [i];
    forall k | 0 <= k < i + 1 && IsContentTag(walk[k]) ensures k in acc' || Covered(walk, acc', k) {
      if k == i {
        assert acc'[|acc|] == i;
      } else if k in acc {
        var a :| 0 <= a < |acc| && acc[a] == k;
        assert acc'[a] == k;
      } else {
        CoveredGrows(walk, acc, i, k);
      }
    }
    forall a | 0 <= a < |acc'| ensures acc'[a] < i + 1 {
      if a < |acc| { assert acc'[a] == acc[a]; }
    }
  }

  lemma {:induction false} CoveredSkipped(walk: seq<Node>, i: nat, skipUntil: nat, acc: seq<nat>)
    requires i < |walk| && ScanState(walk, i, skipUntil, acc)
    requires !(IsContentTag(walk[i]) && skipUntil <= i)
    ensures ScanState(walk, i + 1, skipUntil, acc)
  {
    if IsContentTag(walk[i]) {
      var a := |acc| - 1;
      assert acc[a] < i <= acc[a] + |Descendants(walk[acc[a]])|;
      assert Covered(walk, acc, i);
    }
  }

  /** Every content tag is converted by position or lies inside a block
      converted before it. */
  lemma {:induction false} ProcessedByPositionFromCovers(walk: seq<Node>, i: nat, skipUntil: nat, acc: seq<nat>,
                                                        p: seq<nat>)
    requires ScanState(walk, i, skipUntil, acc)
    requires p == ProcessedByPositionFrom(walk, i, skipUntil, acc)
    ensures AllCovered(walk, p, |walk|)
    decreases |walk| - i
  {
    if i < |walk| {
      var n := walk[i];
      if IsContentTag(n) && skipUntil <= i {
        CoveredTaken(walk, i, skipUntil, acc);
        ProcessedByPositionFromCovers(walk, i + 1, i + 1 + |Descendants(n)|, acc + [i], p);
      } else {
        CoveredSkipped(walk, i, skipUntil, acc);
        ProcessedByPositionFromCovers(walk, i + 1, skipUntil, acc, p);
      }
    }
  }

  /** Every content tag is converted, or lies among the descendants of a
      converted one; converted blocks never overlap. */
  lemma {:induction false} ProcessedByPositionCovers(walk: seq<Node>)
    ensures ConvertedByPosition(walk, ProcessedByPosition(walk))
    ensures forall k :: 0 <= k < |walk| && IsContentTag(walk[k]) ==>
      k in ProcessedByPosition(walk) || Covered(walk, ProcessedByPosition(walk), k)
  {
    ProcessedByPositionFromDisjoint(walk, 0, 0, [], ProcessedByPosition(walk));
    ProcessedByPositionFromCovers(walk, 0, 0, [], ProcessedByPosition(walk));
    assert AllCovered(walk, ProcessedByPosition(walk), |walk|);
  }

  const SameParagraph: Node := Element("p", map[], [TextNode("Same.")])

  /** Two equal paragraphs: the visited set holds the first, which equals the
      second, so the second one is never converted; by position both are. */
  lemma {:induction false} EqualParagraphSkipped()
    ensures Walk([SameParagraph, SameParagraph]) == [SameParagraph, TextNode("Same."), SameParagraph, TextNode("Same.")]
    ensures Processed(Walk([SameParagraph, SameParagraph])) == [0]
    ensures ProcessedByPosition(Walk([SameParagraph, SameParagraph])) == [0, 2]
  {
    var t := TextNode("Same.");
    assert Walk([t]) == [t] by { assert [t][1..] == []; }
    assert SameParagraph.children == [t];
    assert Walk([SameParagraph]) == [SameParagraph, t] by {
      assert [SameParagraph][1..] == [];
    }
    assert Walk([SameParagraph, SameParagraph]) == [SameParagraph, t, SameParagraph, t] by {
      assert [SameParagraph, SameParagraph][1..] == [SameParagraph];
    }
    var walk := [SameParagraph, t, SameParagraph, t];
    assert IsContentTag(SameParagraph) && !IsContentTag(t);
    assert HeadingLevel(SameParagraph).None?;
    var marked := Marked(SameParagraph);
    assert SameParagraph in marked;
    assert walk[0] == SameParagraph && walk[2] == SameParagraph;
    assert {} + marked == marked && [] + [0] == [0] && [0] + [2] == [0, 2];
    assert Processed(walk) == ProcessedFrom(walk, 1, {} + Marked(walk[0]), [] + [0]);
    assert ProcessedFrom(walk, 1, marked, [0]) == ProcessedFrom(walk, 2, marked, [0]);
    assert ProcessedFrom(walk, 2, marked, [0]) == ProcessedFrom(walk, 3, marked, [0]);
    assert ProcessedFrom(walk, 3, marked, [0]) == ProcessedFrom(walk, 4, marked, [0]);
    assert |Descendants(SameParagraph)| == 1;
    assert ProcessedByPosition(walk) == ProcessedByPositionFrom(walk, 1, 0 + 1 + |Descendants(walk[0])|, [] + [0]);
    assert ProcessedByPositionFrom(walk, 1, 2, [0]) == ProcessedByPositionFrom(walk, 2, 2, [0]);
    assert ProcessedByPositionFrom(walk, 2, 2, [0]) == ProcessedByPositionFrom(walk, 3, 2 + 1 + |Descendants(walk[2])|, [0] + [2]);
    assert ProcessedByPositionFrom(walk, 3, 4, [0, 2]) == ProcessedByPositionFrom(walk, 4, 4, [0, 2]);
  }

  // ---------------------------------------------------------------------
  // What the sections are
  // ---------------------------------------------------------------------

  /** What comes first among headings and blocks in the walk. */
  datatype Lead = Neither | HeadingFirst | ContentFirst

  function LeadOf(walk: seq<Node>): Lead
  {
    if walk == [] then Neither
    else
      var l := LeadOf(walk[..|walk| - 1]);
      var n := walk[|walk| - 1];
      if l != Neither then l
      else if HeadingLevel(n).Some? then HeadingFirst
      else if IsContentTag(n) then ContentFirst
      else Neither
  }

  function HeadingCount(walk: seq<Node>): nat
  {
    if walk == [] then 0
    else HeadingCount(walk[..|walk| - 1]) + (if HeadingLevel(walk[|walk| - 1]).Some? then 1 else 0)
  }

  lemma {:induction false} PrefixStep(walk: seq<Node>, i: nat)
    requires i < |walk|
    ensures HeadingCount(walk[..i + 1]) == HeadingCount(walk[..i]) + (if HeadingLevel(walk[i]).Some? then 1 else 0)
    ensures LeadOf(walk[..i]) != Neither ==> LeadOf(walk[..i + 1]) == LeadOf(walk[..i])
    ensures LeadOf(walk[..i]) == Neither ==>
      LeadOf(walk[..i + 1])
      == (if HeadingLevel(walk[i]).Some? then HeadingFirst else if IsContentTag(walk[i]) then ContentFirst else Neither)
  {
    assert walk[..i + 1][..i] == walk[..i];
  }

  /** The positions of the flags that are set, in order. */
  function SetPositions(flags: seq<bool>): (ps: seq<nat>)
  {
    if flags == [] then []
    else
      var n := |flags| - 1;
      SetPositions(flags[..n]) + (if flags[n] then [n] else [])
  }

  lemma {:induction false} SetPositionsMeaning(flags: seq<bool>)
    ensures forall i :: 0 <= i < |flags| ==> (flags[i] <==> i in SetPositions(flags))
    ensures forall i :: i in SetPositions(flags) ==> i < |flags|
  {
    if flags != [] {
      var n := |flags| - 1;
      SetPositionsMeaning(flags[..n]);
      assert forall i :: 0 <= i < n ==> flags[..n][i] == flags[i];
    }
  }

  lemma {:induction false} SetPositionsSnoc(flags: seq<bool>, f: bool)
    ensures SetPositions(flags + [f]) == SetPositions(flags) + (if f then [|flags|] else [])
  {
    assert (flags + [f])[..|flags|] == flags;
  }

  /** The walk positions converted so far, after one more node. */
  lemma {:induction false} ProcessedStep(walk: seq<Node>, i: nat, before: set<Node>, visited: set<Node>, conv: seq<bool>, converted: bool)
    requires i < |walk| && |conv| == i
    requires converted <==> HeadingLevel(walk[i]).None? && walk[i] !in before && IsContentTag(walk[i])
    requires visited == if converted then before + Marked(walk[i]) else before
    ensures ProcessedFrom(walk, i + 1, visited, SetPositions(conv + [converted]))
      == ProcessedFrom(walk, i, before, SetPositions(conv))
  {
    SetPositionsSnoc(conv, converted);
    if converted {
      assert SetPositions(conv + [converted]) == SetPositions(conv) + [i];
    } else {
      assert SetPositions(conv + [converted]) == SetPositions(conv);
    }
  }

  /** Every converted block of the walk gave the contents recorded for it. */
  ghost predicate BlocksConverted(walk: seq<Node>, conv: seq<bool>, blocks: seq<seq<LumiContent>>,
                                  pm: map<string, LumiContent>, hooks: Hooks, strip: bool)
    requires |conv| == |walk| && |blocks| == |walk|
  {
    walk == []
    || var n := |walk| - 1;
       BlocksConverted(walk[..n], conv[..n], blocks[..n], pm, hooks, strip)
       && (conv[n] ==> BlockContents(walk[n], blocks[n], pm, hooks, strip))
  }

  lemma {:induction false} BlocksStep(walk: seq<Node>, i: nat, conv: seq<bool>, blocks: seq<seq<LumiContent>>, converted: bool,
                   cs: seq<LumiContent>, pm: map<string, LumiContent>, hooks: Hooks, strip: bool)
    requires i < |walk| && |conv| == i && |blocks| == i
    requires BlocksConverted(walk[..i], conv, blocks, pm, hooks, strip)
    requires converted ==> BlockContents(walk[i], cs, pm, hooks, strip)
    ensures BlocksConverted(walk[..i + 1], conv + [converted], blocks + [cs], pm, hooks, strip)
  {
    assert walk[..i + 1][..i] == walk[..i];
    assert (conv + [converted])[..i] == conv && (blocks + [cs])[..i] == blocks;
  }

  lemma {:induction false} BlocksConvertedMeaning(walk: seq<Node>, conv: seq<bool>, blocks: seq<seq<LumiContent>>,
                                                  pm: map<string, LumiContent>, hooks: Hooks, strip: bool)
    requires |conv| == |walk| && |blocks| == |walk|
    requires BlocksConverted(walk, conv, blocks, pm, hooks, strip)
    ensures forall i :: 0 <= i < |walk| && conv[i] ==> BlockContents(walk[i], blocks[i], pm, hooks, strip)
  {
    if walk != [] {
      var n := |walk| - 1;
      BlocksConvertedMeaning(walk[..n], conv[..n], blocks[..n], pm, hooks, strip);
    }
  }

  /** What the conversion of block `n` gives: nothing for a blank text
      tag, the assembled segments of a text tag's text with its
      placeholders replaced, and one list content for a list. */
  ghost predicate BlockContents(n: Node, cs: seq<LumiContent>, pm: map<string, LumiContent>, hooks: Hooks, strip: bool)
  {
    (n.Element? && n.name in TextTags && IsBlank(hooks.getText(n)) ==> cs == [])
    && (n.Element? && n.name in TextTags && !IsBlank(hooks.getText(n)) ==>
          Assembled(cs, Segments(hooks.substitute(hooks.getText(n), pm)), pm, n.name, hooks, strip))
    && (IsList(n) ==>
          |cs| == 1 && cs[0].listContent.Some? && ListShaped(cs[0].listContent.value, n, pm, hooks, strip))
  }

  /** The contents of one block: a text tag is cut at its placeholders,
      a list becomes one list content. */
  method ConvertBlock(n: Node, pm: map<string, LumiContent>, stripDoubleBrackets: bool, hooks: Hooks, nextId: Id)
    returns (cs: seq<LumiContent>, idsAfter: Id)
    requires IsContentTag(n)
    ensures BlockContents(n, cs, pm, hooks, stripDoubleBrackets)
    ensures nextId <= idsAfter
  {
    cs := [];
    if n.name in TextTags {
      var r;
      r, idsAfter := ParseHtmlBlock(hooks.getText(n), n.name, pm, stripDoubleBrackets, hooks, nextId);
      if r.Some? {
        cs := r.value;
      }
    } else {
      var r;
      r, idsAfter := GetListContentFromTag(n, pm, stripDoubleBrackets, hooks, nextId);
      cs := [r.value];
    }
  }

  /** The entries after visiting node `n` with `id` as the next id: a
      heading opens an entry of its level and text; a converted block
      opens a level-1 entry without text when there is none yet, and its
      contents, if any, go to the last entry. */
  function Visit(es: seq<SectionEntry>, n: Node, converted: bool, cs: seq<LumiContent>, id: Id,
                 getText: Node -> string): seq<SectionEntry>
  {
    match HeadingLevel(n)
    case Some(level) => es + [SectionEntry(id, level, getText(n), [])]
    case None =>
      if !converted then es
      else
        var open := if es == [] then [SectionEntry(id, 1, "", [])] else es;
        if cs == [] then open else AddLast(open, cs)
  }

  /** The entries of a walk, given for each node whether it was converted,
      the contents it gave and the next id when it was visited. */
  function Outline(walk: seq<Node>, conv: seq<bool>, blocks: seq<seq<LumiContent>>, ids: seq<Id>,
                   getText: Node -> string): seq<SectionEntry>
    requires |conv| == |walk| && |blocks| == |walk| && |ids| == |walk|
  {
    if walk == [] then []
    else
      var n := |walk| - 1;
      Visit(Outline(walk[..n], conv[..n], blocks[..n], ids[..n], getText), walk[n], conv[n], blocks[n], ids[n], getText)
  }

  lemma {:induction false} OutlineSnoc(walk: seq<Node>, i: nat, conv: seq<bool>, blocks: seq<seq<LumiContent>>, ids: seq<Id>,
                    c: bool, cs: seq<LumiContent>, id: Id, getText: Node -> string)
    requires i < |walk| && |conv| == i && |blocks| == i && |ids| == i
    ensures Outline(walk[..i + 1], conv + [c], blocks + [cs], ids + [id], getText)
      == Visit(Outline(walk[..i], conv, blocks, ids, getText), walk[i], c, cs, id, getText)
  {
    assert walk[..i + 1][..i] == walk[..i];
    assert (conv + [c])[..i] == conv;
    assert (blocks + [cs])[..i] == blocks;
    assert (ids + [id])[..i] == ids;
  }

  /** One node of the walk: a heading opens a section; a content tag not
      yet visited is converted into the current section (opening a level-1
      section without heading text first when none is open), and it and
      its descendants become visited. */
  method VisitNode(b: SectionBuilder, n: Node, visited: set<Node>, pm: map<string, LumiContent>,
                   stripDoubleBrackets: bool, hooks: Hooks, nextId: Id)
    returns (visitedAfter: set<Node>, idsAfter: Id, converted: bool, ghost cs: seq<LumiContent>)
    requires b.Valid()
    modifies b
    ensures b.Valid()
    ensures converted <==> HeadingLevel(n).None? && n !in visited && IsContentTag(n)
    ensures visitedAfter == if converted then visited + Marked(n) else visited
    ensures b.entries == Visit(old(b.entries), n, converted, cs, nextId, hooks.getText)
    ensures converted ==> BlockContents(n, cs, pm, hooks, stripDoubleBrackets)
    ensures CountAll(b.roots)
      == CountAll(old(b.roots)) + (if HeadingLevel(n).Some? || (converted && old(b.roots) == []) then 1 else 0)
    ensures b.roots == [] <==> old(b.roots) == [] && HeadingLevel(n).None? && !converted
    ensures old(b.roots) != [] ==> b.roots[0].heading == old(b.roots)[0].heading
    ensures old(b.roots) == [] && converted ==> b.roots[0].heading == Heading(1, "")
    ensures nextId <= idsAfter
  {
    SpineEmpty(b.roots);
    visitedAfter, idsAfter, converted, cs := visited, nextId, false, [];
    var level := HeadingLevel(n);
    if level.Some? {
      b.OpenSection(level.value, hooks.getText(n), idsAfter);
      idsAfter := idsAfter + 1;
    } else if n !in visited && IsContentTag(n) {
      idsAfter, cs := VisitContentTag(b, n, pm, stripDoubleBrackets, hooks, idsAfter);
      visitedAfter := visited + Marked(n);
      converted := true;
    }
  }

  /** A content tag not yet visited: converted into the current section,
      which is opened first (level 1, no heading text) when none is open. */
  method VisitContentTag(b: SectionBuilder, n: Node, pm: map<string, LumiContent>,
                         stripDoubleBrackets: bool, hooks: Hooks, nextId: Id)
    returns (idsAfter: Id, ghost cs: seq<LumiContent>)
    requires b.Valid() && HeadingLevel(n).None? && IsContentTag(n)
    modifies b
    ensures b.Valid()
    ensures b.entries == Visit(old(b.entries), n, true, cs, nextId, hooks.getText)
    ensures BlockContents(n, cs, pm, hooks, stripDoubleBrackets)
    ensures CountAll(b.roots) == CountAll(old(b.roots)) + (if old(b.roots) == [] then 1 else 0)
    ensures b.roots != []
    ensures old(b.roots) != [] ==> b.roots[0].heading == old(b.roots)[0].heading
    ensures old(b.roots) == [] ==> b.roots[0].heading == Heading(1, "")
    ensures nextId <= idsAfter
  {
    SpineEmpty(b.roots);
    idsAfter := nextId;
    if b.stack == [] {
      b.OpenSection(1, "", idsAfter);
      idsAfter := idsAfter + 1;
    }
    var block;
    block, idsAfter := ConvertBlock(n, pm, stripDoubleBrackets, hooks, idsAfter);
    if block != [] {
      b.AddContents(block);
    }
    cs := block;
  }

  /** The sections of a parsed HTML document, given as its top-level nodes.
      Nodes are visited in document order; a heading opens a section, and
      a text or list block not yet visited becomes contents of the current
      section (opening a level-1 section without heading text when no
      section is open yet). Ids are drawn from the supply from `nextId`.
      `processed` lists the walk positions of the blocks converted; the
      sections are the forest of the outline of the walk, given the
      contents each converted block gave and the ids drawn. */
  method ConvertToLumiSections(doc: seq<Node>, pm: map<string, LumiContent>, stripDoubleBrackets: bool,
                               hooks: Hooks, nextId: Id)
    returns (sections: seq<LumiSection>, idsAfter: Id, ghost processed: seq<nat>,
             ghost conv: seq<bool>, ghost blocks: seq<seq<LumiContent>>, ghost ids: seq<Id>)
    ensures AllNested(sections)
    ensures |conv| == |Walk(doc)| && |blocks| == |Walk(doc)| && |ids| == |Walk(doc)|
    ensures sections == Forest(Outline(Walk(doc), conv, blocks, ids, hooks.getText))
    ensures forall i :: 0 <= i < |Walk(doc)| ==> (conv[i] <==> i in processed)
    ensures forall i :: 0 <= i < |Walk(doc)| && conv[i] ==> BlockContents(Walk(doc)[i], blocks[i], pm, hooks, stripDoubleBrackets)
    ensures CountAll(sections) == HeadingCount(Walk(doc)) + (if LeadOf(Walk(doc)) == ContentFirst then 1 else 0)
    ensures LeadOf(Walk(doc)) == Neither <==> sections == []
    ensures LeadOf(Walk(doc)) == ContentFirst ==> sections[0].heading == Heading(1, "")
    ensures processed == Processed(Walk(doc))
    ensures nextId <= idsAfter
  {
    var walk := Walk(doc);
    var b := new SectionBuilder();
    var visited: set<Node> := {};
    idsAfter := nextId;
    conv, blocks, ids := [], [], [];
    for i := 0 to |walk|
      invariant b.Valid()
      invariant |conv| == i && |blocks| == i && |ids| == i
      invariant b.entries == Outline(walk[..i], conv, blocks, ids, hooks.getText)
      invariant BlocksConverted(walk[..i], conv, blocks, pm, hooks, stripDoubleBrackets)
      invariant ProcessedFrom(walk, i, visited, SetPositions(conv)) == Processed(walk)
      invariant CountAll(b.roots) == HeadingCount(walk[..i]) + (if LeadOf(walk[..i]) == ContentFirst then 1 else 0)
      invariant LeadOf(walk[..i]) == Neither <==> b.roots == []
      invariant b.roots == [] ==> visited == {}
      invariant LeadOf(walk[..i]) == ContentFirst ==> b.roots[0].heading == Heading(1, "")
      invariant nextId <= idsAfter
    {
      PrefixStep(walk, i);
      ghost var before := visited;
      ghost var id := idsAfter;
      var converted;
      ghost var cs;
      visited, idsAfter, converted, cs := VisitNode(b, walk[i], visited, pm, stripDoubleBrackets, hooks, idsAfter);
      OutlineSnoc(walk, i, conv, blocks, ids, converted, cs, id, hooks.getText);
      ProcessedStep(walk, i, before, visited, conv, converted);
      BlocksStep(walk, i, conv, blocks, converted, cs, pm, hooks, stripDoubleBrackets);
      conv, blocks, ids := conv + [converted], blocks + [cs], ids + [id];
    }
    assert walk[..|walk|] == walk;
    processed := SetPositions(conv);
    SetPositionsMeaning(conv);
    BlocksConvertedMeaning(walk, conv, blocks, pm, hooks, stripDoubleBrackets);
    sections := b.roots;
  }

  lemma {:induction false} OutlinePrefix(walk: seq<Node>, conv: seq<bool>, blocks: seq<seq<LumiContent>>, ids: seq<Id>,
                      getText: Node -> string, i: nat)
    requires |conv| == |walk| && |blocks| == |walk| && |ids| == |walk| && i < |walk|
    ensures Outline(walk[..i + 1], conv[..i + 1], blocks[..i + 1], ids[..i + 1], getText)
      == Visit(Outline(walk[..i], conv[..i], blocks[..i], ids[..i], getText), walk[i], conv[i], blocks[i], ids[i], getText)
  {
    assert walk[..i + 1][..i] == walk[..i] && conv[..i + 1][..i] == conv[..i];
    assert blocks[..i + 1][..i] == blocks[..i] && ids[..i + 1][..i] == ids[..i];
  }

  lemma {:induction false} OutlineHeadingStep(walk: seq<Node>, conv: seq<bool>, blocks: seq<seq<LumiContent>>, ids: seq<Id>,
                           getText: Node -> string, i: nat, prev: seq<SectionEntry>, level: nat)
    requires |conv| == |walk| && |blocks| == |walk| && |ids| == |walk| && i < |walk|
    requires Outline(walk[..i], conv[..i], blocks[..i], ids[..i], getText) == prev
    requires HeadingLevel(walk[i]) == Some(level)
    ensures Outline(walk[..i + 1], conv[..i + 1], blocks[..i + 1], ids[..i + 1], getText)
      == prev + [SectionEntry(ids[i], level, getText(walk[i]), [])]
  {
    OutlinePrefix(walk, conv, blocks, ids, getText, i);
  }

  lemma {:induction false} OutlineBlockStep(walk: seq<Node>, conv: seq<bool>, blocks: seq<seq<LumiContent>>, ids: seq<Id>,
                         getText: Node -> string, i: nat, prev: seq<SectionEntry>)
    requires |conv| == |walk| && |blocks| == |walk| && |ids| == |walk| && i < |walk|
    requires Outline(walk[..i], conv[..i], blocks[..i], ids[..i], getText) == prev
    requires HeadingLevel(walk[i]).None? && conv[i] && prev != [] && blocks[i] != []
    ensures Outline(walk[..i + 1], conv[..i + 1], blocks[..i + 1], ids[..i + 1], getText) == AddLast(prev, blocks[i])
  {
    OutlinePrefix(walk, conv, blocks, ids, getText, i);
  }

  /** The entries of a walk h1, p, h2, p, h1 in which both paragraphs are
      converted: each paragraph's contents go to the heading before it. */
  lemma {:induction false} OutlineExample(walk: seq<Node>, c1: seq<LumiContent>, c2: seq<LumiContent>,
                                          ids: seq<Id>, getText: Node -> string)
    requires |walk| == 5 && |ids| == 5
    requires HeadingLevel(walk[0]) == Some(1) && HeadingLevel(walk[2]) == Some(2) && HeadingLevel(walk[4]) == Some(1)
    requires HeadingLevel(walk[1]).None? && HeadingLevel(walk[3]).None?
    requires c1 != [] && c2 != []
    ensures Outline(walk, [false, true, false, true, false], [[], c1, [], c2, []], ids, getText)
      == [SectionEntry(ids[0], 1, getText(walk[0]), c1), SectionEntry(ids[2], 2, getText(walk[2]), c2),
          SectionEntry(ids[4], 1, getText(walk[4]), [])]
  {
    var conv := [false, true, false, true, false];
    var blocks: seq<seq<LumiContent>> := [[], c1, [], c2, []];
    var ea := SectionEntry(ids[0], 1, getText(walk[0]), []);
    var eb := SectionEntry(ids[2], 2, getText(walk[2]), []);
    var ec := SectionEntry(ids[4], 1, getText(walk[4]), []);
    OutlineExampleStart(walk, c1, c2, ids, getText);
    var o3 := [ea.(contents := c1), eb];
    OutlineBlockStep(walk, conv, blocks, ids, getText, 3, o3);
    var o4 := AddLast(o3, c2);
    assert o4 == [ea.(contents := c1), eb.(contents := c2)] by { assert [] + c2 == c2; }
    OutlineHeadingStep(walk, conv, blocks, ids, getText, 4, o4, 1);
    assert walk[..5] == walk && conv[..5] == conv && blocks[..5] == blocks && ids[..5] == ids;
  }

  /** The first three nodes of that walk: h1, its paragraph, then h2. */
  lemma {:induction false} OutlineExampleStart(walk: seq<Node>, c1: seq<LumiContent>, c2: seq<LumiContent>,
                                               ids: seq<Id>, getText: Node -> string)
    requires |walk| == 5 && |ids| == 5
    requires HeadingLevel(walk[0]) == Some(1) && HeadingLevel(walk[2]) == Some(2)
    requires HeadingLevel(walk[1]).None?
    requires c1 != []
    ensures Outline(walk[..3], [false, true, false, true, false][..3], [[], c1, [], c2, []][..3], ids[..3], getText)
      == [SectionEntry(ids[0], 1, getText(walk[0]), c1), SectionEntry(ids[2], 2, getText(walk[2]), [])]
  {
    var conv := [false, true, false, true, false];
    var blocks: seq<seq<LumiContent>> := [[], c1, [], c2, []];
    var ea := SectionEntry(ids[0], 1, getText(walk[0]), []);
    var eb := SectionEntry(ids[2], 2, getText(walk[2]), []);
    OutlineHeadingStep(walk, conv, blocks, ids, getText, 0, [], 1);
    OutlineBlockStep(walk, conv, blocks, ids, getText, 1, [ea]);
    var o2 := AddLast([ea], c1);
    assert o2 == [ea.(contents := c1)] by { assert [] + c1 == c1; }
    OutlineHeadingStep(walk, conv, blocks, ids, getText, 2, o2, 2);
  }

  /** The forest of those entries: the h2 section nests under the first h1
      section and the second h1 starts a new top-level section. */
  lemma {:induction false} ForestExample(ea: SectionEntry, eb: SectionEntry, ec: SectionEntry)
    requires ea.level == 1 && eb.level == 2 && ec.level == 1
    ensures Forest([ea, eb, ec])
      == [LumiSection(ea.id, Heading(1, ea.text), ea.contents, [LumiSection(eb.id, Heading(2, eb.text), eb.contents, [])]),
          LumiSection(ec.id, Heading(1, ec.text), ec.contents, [])]
  {
    var es := [ea, eb, ec];
    assert Forest([eb]) == [LumiSection(eb.id, Heading(2, eb.text), eb.contents, [])] by {
      SubtreeEndIs([eb], 1, 2, 1);
      assert [eb][1..1] == [] && [eb][1..] == [];
    }
    assert Forest([ec]) == [LumiSection(ec.id, Heading(1, ec.text), ec.contents, [])] by {
      SubtreeEndIs([ec], 1, 1, 1);
      assert [ec][1..1] == [] && [ec][1..] == [];
    }
    SubtreeEndIs(es, 1, 1, 2);
    assert es[1..2] == [eb] && es[2..] == [ec];
  }


  /** The sections of a walk h1, p, h2, p, h1 in which both paragraphs are
      converted with non-empty contents. */
  lemma {:induction false} SectionsExample(walk: seq<Node>, c1: seq<LumiContent>, c2: seq<LumiContent>,
                        ids: seq<Id>, getText: Node -> string)
    requires |walk| == 5 && |ids| == 5
    requires HeadingLevel(walk[0]) == Some(1) && HeadingLevel(walk[2]) == Some(2) && HeadingLevel(walk[4]) == Some(1)
    requires HeadingLevel(walk[1]).None? && HeadingLevel(walk[3]).None?
    requires c1 != [] && c2 != []
    ensures Forest(Outline(walk, [false, true, false, true, false], [[], c1, [], c2, []], ids, getText))
      == [LumiSection(ids[0], Heading(1, getText(walk[0])), c1,
                      [LumiSection(ids[2], Heading(2, getText(walk[2])), c2, [])]),
          LumiSection(ids[4], Heading(1, getText(walk[4])), [], [])]
  {
    OutlineExample(walk, c1, c2, ids, getText);
    ForestExample(SectionEntry(ids[0], 1, getText(walk[0]), c1), SectionEntry(ids[2], 2, getText(walk[2]), c2),
                  SectionEntry(ids[4], 1, getText(walk[4]), []));
  }

  // ---------------------------------------------------------------------
  // The block splitter
  // ---------------------------------------------------------------------

  predicate NoLineBreak(s: string)
  {
    forall k :: 0 <= k < |s| ==> s[k] != '\n'
  }

  /** The end of the placeholder match starting at `i`, if any: the prefix,
      then the first suffix after it, with no line break in between (the
      lazy `.*?` does not cross a line break). */
  function PlaceholderEndAt(text: string, i: nat): (r: Option<nat>)
    ensures r.Some? ==> i + |PlaceholderPrefix| + |PlaceholderSuffix| <= r.value <= |text|
  {
    if !OccursAt(text, PlaceholderPrefix, i) then None
    else
      var j := Find(text, PlaceholderSuffix, i + |PlaceholderPrefix|);
      if j == -1 || !NoLineBreak(text[i + |PlaceholderPrefix|..j]) then None
      else Some(j + |PlaceholderSuffix|)
  }

  /** The leftmost placeholder match at or after `from`, as (start, end). */
  function NextPlaceholder(text: string, from: nat): (r: Option<(nat, nat)>)
    ensures r.Some? ==> from <= r.value.0 && PlaceholderEndAt(text, r.value.0) == Some(r.value.1)
    decreases |text| + 1 - from
  {
    if from > |text| then None
    else match PlaceholderEndAt(text, from)
      case Some(e) => Some((from, e))
      case None => NextPlaceholder(text, from + 1)
  }

  /** A block cut at its placeholders: the text between them, and the
      placeholders themselves. */
  datatype Segment = TextSegment(text: string) | PlaceholderSegment(key: string)

  function SegmentString(s: Segment): string
  {
    match s
    case TextSegment(t) => t
    case PlaceholderSegment(k) => k
  }

  /** The segments of `text` from `pos` on, after the segments `acc`: text
      before a placeholder is a segment when it is not empty. */
  function SegmentsFrom(text: string, pos: nat, acc: seq<Segment>): seq<Segment>
    requires pos <= |text|
    decreases |text| - pos
  {
    match NextPlaceholder(text, pos)
    case None => if pos < |text| then acc + [TextSegment(text[pos..])] else acc
    case Some((s, e)) =>
      var before := if s > pos then [TextSegment(text[pos..s])] else [];
      SegmentsFrom(text, e, acc + before + [PlaceholderSegment(text[s..e])])
  }

  function Segments(text: string): seq<Segment>
  {
    SegmentsFrom(text, 0, [])
  }

  function Flatten(segs: seq<Segment>): string
  {
    if segs == [] then [] else Flatten(segs[..|segs| - 1]) + SegmentString(segs[|segs| - 1])
  }

  predicate SegmentWellFormed(s: Segment)
  {
    match s
    case TextSegment(t) => t != []
    case PlaceholderSegment(k) =>
      |PlaceholderPrefix| + |PlaceholderSuffix| <= |k|
      && StartsWith(k, PlaceholderPrefix) && EndsWith(k, PlaceholderSuffix)
      && NoLineBreak(k[|PlaceholderPrefix|..|k| - |PlaceholderSuffix|])
  }

  predicate WellFormed(segs: seq<Segment>)
  {
    forall s <- segs :: SegmentWellFormed(s)
  }

  lemma {:induction false} FlattenSnoc(segs: seq<Segment>, s: Segment)
    ensures Flatten(segs + [s]) == Flatten(segs) + SegmentString(s)
  {
    assert (segs + [s])[..|segs|] == segs;
  }

  lemma {:induction false} PlaceholderWellFormed(text: string, s: nat, e: nat)
    requires PlaceholderEndAt(text, s) == Some(e)
    ensures SegmentWellFormed(PlaceholderSegment(text[s..e]))
  {
    var k := text[s..e];
    var j := Find(text, PlaceholderSuffix, s + |PlaceholderPrefix|);
    assert j + |PlaceholderSuffix| == e;
    SliceOfSlice(text, s, e, 0, |PlaceholderPrefix|);
    SliceOfSlice(text, s, e, |k| - |PlaceholderSuffix|, |k|);
    SliceOfSlice(text, s, e, |PlaceholderPrefix|, |k| - |PlaceholderSuffix|);
    assert StartsWith(k, PlaceholderPrefix);
    assert EndsWith(k, PlaceholderSuffix);
  }

  lemma {:induction false} SegmentsFromRebuild(text: string, pos: nat, acc: seq<Segment>)
    requires pos <= |text|
    requires WellFormed(acc)
    ensures Flatten(SegmentsFrom(text, pos, acc)) == Flatten(acc) + text[pos..]
    ensures WellFormed(SegmentsFrom(text, pos, acc))
    decreases |text| - pos
  {
    match NextPlaceholder(text, pos)
    case None =>
      SegmentsEnd(text, pos, acc);
    case Some((s, e)) =>
      var before := if s > pos then [TextSegment(text[pos..s])] else [];
      var acc' := acc + before + [PlaceholderSegment(text[s..e])];
      PlaceholderWellFormed(text, s, e);
      if s > pos {
        FlattenSnoc(acc, TextSegment(text[pos..s]));
        WellFormedSnoc(acc, TextSegment(text[pos..s]));
      } else {
        assert acc + before == acc && text[pos..s] == [];
      }
      SegmentsStep(text, pos, s, e, acc, acc + before);
      assert SegmentsFrom(text, pos, acc) == SegmentsFrom(text, e, acc');
      SegmentsFromRebuild(text, e, acc');
      SuffixSplit(text, pos, e);
      calc {
        Flatten(SegmentsFrom(text, pos, acc));
        Flatten(acc') + text[e..];
        (Flatten(acc) + text[pos..e]) + text[e..];
        { ConcatAssoc(Flatten(acc), text[pos..e], text[e..]); }
        Flatten(acc) + (text[pos..e] + text[e..]);
        Flatten(acc) + text[pos..];
      }
  }

  /** One step of the splitter, as the loop takes it. */
  lemma {:induction false} SegmentsFromStep(text: string, pos: nat, s: nat, e: nat, acc: seq<Segment>)
    requires pos <= |text| && NextPlaceholder(text, pos) == Some((s, e))
    ensures e <= |text|
    ensures s > pos ==>
      SegmentsFrom(text, pos, acc) == SegmentsFrom(text, e, acc + [TextSegment(text[pos..s])] + [PlaceholderSegment(text[s..e])])
    ensures s == pos ==>
      SegmentsFrom(text, pos, acc) == SegmentsFrom(text, e, acc + [PlaceholderSegment(text[s..e])])
  {
    if s == pos {
      assert acc + [] == acc;
    }
  }

  /** The last step of the splitter: the rest of the text, when not empty,
      is the last segment. */
  lemma {:induction false} SegmentsEnd(text: string, pos: nat, acc: seq<Segment>)
    requires pos <= |text| && NextPlaceholder(text, pos).None?
    requires WellFormed(acc)
    ensures Flatten(SegmentsFrom(text, pos, acc)) == Flatten(acc) + text[pos..]
    ensures WellFormed(SegmentsFrom(text, pos, acc))
  {
    if pos < |text| {
      assert SegmentsFrom(text, pos, acc) == acc + [TextSegment(text[pos..])];
      FlattenSnoc(acc, TextSegment(text[pos..]));
      WellFormedSnoc(acc, TextSegment(text[pos..]));
    } else {
      assert SegmentsFrom(text, pos, acc) == acc;
      assert text[pos..] == [];
    }
  }

  /** One step of the splitter: the segments `mid` spell out the text up
      to the placeholder at `s`, which then joins them. */
  lemma {:induction false} SegmentsStep(text: string, pos: nat, s: nat, e: nat, acc: seq<Segment>, mid: seq<Segment>)
    requires pos <= s <= e <= |text| && SegmentWellFormed(PlaceholderSegment(text[s..e]))
    requires Flatten(mid) == Flatten(acc) + text[pos..s] && WellFormed(mid)
    ensures Flatten(mid + [PlaceholderSegment(text[s..e])]) == Flatten(acc) + text[pos..e]
    ensures WellFormed(mid + [PlaceholderSegment(text[s..e])])
  {
    FlattenSnoc(mid, PlaceholderSegment(text[s..e]));
    WellFormedSnoc(mid, PlaceholderSegment(text[s..e]));
    SliceSplit(text, pos, s, e);
  }

  lemma {:induction false} WellFormedSnoc(segs: seq<Segment>, x: Segment)
    requires WellFormed(segs) && SegmentWellFormed(x)
    ensures WellFormed(segs + [x])
  {
  }

  /** The segments spell out the text, in order, with nothing lost; each
      placeholder segment is a whole placeholder on one line. */
  lemma {:induction false} SegmentsRebuildText(text: string)
    ensures Flatten(Segments(text)) == text
    ensures WellFormed(Segments(text))
  {
    SegmentsFromRebuild(text, 0, []);
  }

  /** A text with a single placeholder (whose key has no closing bracket
      and no line break) between two non-empty texts without an opening
      bracket is cut into exactly those three segments. */
  lemma {:induction false} SegmentsAroundPlaceholder(pre: string, body: string, post: string)
    requires pre != [] && post != []
    requires '[' !in pre && '[' !in post && ']' !in body && '\n' !in body
    ensures var key := PlaceholderPrefix + body + PlaceholderSuffix;
      Segments(pre + key + post) == [TextSegment(pre), PlaceholderSegment(key), TextSegment(post)]
  {
    var key := PlaceholderPrefix + body + PlaceholderSuffix;
    var t := pre + key + post;
    var s, e := |pre|, |pre| + |key|;
    PieceOf(pre, key, post);
    PlaceholderOfKey(t, s, body);
    assert forall k :: 0 <= k < s ==> PlaceholderEndAt(t, k).None? by {
      BracketsOnlyInKey(pre, key, post);
      NoBracketNoPlaceholder(t, 0, s);
    }
    assert forall k :: e <= k < |t| + 1 ==> PlaceholderEndAt(t, k).None? by {
      BracketsOnlyInKey(pre, key, post);
      NoBracketNoPlaceholder(t, e, |t| + 1);
    }
    SegmentsOfOne(t, s, e);
  }

  /** Around the key, the text has the brackets of `pre` and `post`. */
  lemma {:induction false} BracketsOnlyInKey(pre: string, key: string, post: string)
    requires '[' !in pre && '[' !in post
    ensures var t := pre + key + post;
      forall k :: 0 <= k < |t| && (k < |pre| || |pre| + |key| <= k) ==> t[k] != '['
  {
    var t := pre + key + post;
    forall k | 0 <= k < |t| && (k < |pre| || |pre| + |key| <= k) ensures t[k] != '[' {
      if k < |pre| { assert t[k] == pre[k]; } else { assert t[k] == post[k - |pre| - |key|]; }
    }
  }

  /** A text whose only placeholder sits strictly inside it is cut into
      three segments. */
  lemma {:induction false} SegmentsOfOne(t: string, s: nat, e: nat)
    requires 0 < s && e < |t| && PlaceholderEndAt(t, s) == Some(e)
    requires forall k :: 0 <= k < s ==> PlaceholderEndAt(t, k).None?
    requires forall k :: e <= k < |t| + 1 ==> PlaceholderEndAt(t, k).None?
    ensures Segments(t) == [TextSegment(t[..s]), PlaceholderSegment(t[s..e]), TextSegment(t[e..])]
  {
    NoPlaceholderBefore(t, 0, s);
    NoPlaceholderBefore(t, e, |t| + 1);
    assert NextPlaceholder(t, s) == Some((s, e));
    assert Segments(t) == SegmentsFrom(t, e, [] + [TextSegment(t[0..s])] + [PlaceholderSegment(t[s..e])]);
  }

  /** The three parts of a text, as slices. */
  lemma {:induction false} PieceOf(a: string, b: string, c: string)
    ensures (a + b + c)[..|a|] == (a + b + c)[0..|a|] == a
    ensures (a + b + c)[|a|..|a| + |b|] == b
    ensures (a + b + c)[|a| + |b|..] == c
  {
  }

  /** A placeholder whose key has no closing bracket and no line break
      ends right after its suffix. */
  lemma {:induction false} PlaceholderOfKey(t: string, s: nat, body: string)
    requires s + |PlaceholderPrefix| + |body| + |PlaceholderSuffix| <= |t|
    requires t[s..s + |PlaceholderPrefix| + |body| + |PlaceholderSuffix|] == PlaceholderPrefix + body + PlaceholderSuffix
    requires ']' !in body && '\n' !in body
    ensures PlaceholderEndAt(t, s) == Some(s + |PlaceholderPrefix| + |body| + |PlaceholderSuffix|)
  {
    var from := s + |PlaceholderPrefix|;
    var j := from + |body|;
    var key := PlaceholderPrefix + body + PlaceholderSuffix;
    var n := |key|;
    PieceOf(PlaceholderPrefix, body, PlaceholderSuffix);
    SliceOfSlice(t, s, s + n, 0, |PlaceholderPrefix|);
    SliceOfSlice(t, s, s + n, |PlaceholderPrefix|, |PlaceholderPrefix| + |body|);
    SliceOfSlice(t, s, s + n, |PlaceholderPrefix| + |body|, n);
    assert t[s..from] == PlaceholderPrefix;
    assert t[from..j] == body;
    assert t[j..j + |PlaceholderSuffix|] == PlaceholderSuffix;
    forall k | from <= k < j ensures !OccursAt(t, PlaceholderSuffix, k) {
      assert t[k] == t[from..j][k - from] == body[k - from];
      assert body[k - from] in body;
      FirstCharMismatch(t, PlaceholderSuffix, k);
    }
    FindAt(t, PlaceholderSuffix, from, j);
  }

  /** No placeholder starts where the text has no opening bracket. */
  lemma {:induction false} NoBracketNoPlaceholder(text: string, from: nat, upto: nat)
    requires forall k :: from <= k < upto && k < |text| ==> text[k] != '['
    ensures forall k :: from <= k < upto ==> PlaceholderEndAt(text, k).None?
  {
    forall k | from <= k < upto ensures !OccursAt(text, PlaceholderPrefix, k) {
      if k + |PlaceholderPrefix| <= |text| {
        assert text[k..k + |PlaceholderPrefix|][0] == text[k] != PlaceholderPrefix[0];
      }
    }
  }

  lemma {:induction false} NoPlaceholderBefore(text: string, from: nat, upto: nat)
    requires from <= upto <= |text| + 1
    requires forall k :: from <= k < upto ==> PlaceholderEndAt(text, k).None?
    ensures upto <= |text| ==> NextPlaceholder(text, from) == NextPlaceholder(text, upto)
    ensures upto == |text| + 1 ==> NextPlaceholder(text, from).None?
    decreases upto - from
  {
    if from < upto {
      NoPlaceholderBefore(text, from + 1, upto);
    }
  }

  /** A text content of the block's tag holding at least one span. */
  predicate IsTextBlockOf(c: LumiContent, tagName: string)
  {
    c.textContent.Some? && c.textContent.value.tagName == tagName && c.textContent.value.spans != []
    && c.imageContent.None? && c.figureContent.None? && c.htmlFigureContent.None? && c.listContent.None?
  }

  /** The contents follow the segments in order: a placeholder found in the
      map gives its content and one missing from it gives nothing; a
      non-blank text segment gives one text content of the block's tag
      carrying the spans created from the segment's text, or nothing when
      no span is created from it; a blank one gives nothing. */
  ghost predicate Assembled(cs: seq<LumiContent>, segs: seq<Segment>, pm: map<string, LumiContent>, tagName: string,
                      hooks: Hooks, strip: bool)
  {
    if segs == [] then cs == []
    else
      var init := segs[..|segs| - 1];
      match segs[|segs| - 1]
      case PlaceholderSegment(k) =>
        if k in pm then cs != [] && cs[|cs| - 1] == pm[k] && Assembled(cs[..|cs| - 1], init, pm, tagName, hooks, strip)
        else Assembled(cs, init, pm, tagName, hooks, strip)
      case TextSegment(t) =>
        (Assembled(cs, init, pm, tagName, hooks, strip) && (IsBlank(t) || SegmentSpans([], t, hooks, strip)))
        || (!IsBlank(t) && cs != [] && IsTextBlockOf(cs[|cs| - 1], tagName)
            && SegmentSpans(cs[|cs| - 1].textContent.value.spans, t, hooks, strip)
            && Assembled(cs[..|cs| - 1], init, pm, tagName, hooks, strip))
  }

  /** `spans` are the spans created from text segment `t`, with some
      starting id. */
  ghost predicate SegmentSpans(spans: seq<LumiSpan>, t: string, hooks: Hooks, strip: bool)
  {
    exists k :: SpansOfText(spans, t, k, false, hooks.sentTokenize, PostprocessWith(hooks, strip))
  }

  function MappedContents(segs: seq<Segment>, pm: map<string, LumiContent>): seq<LumiContent>
  {
    if segs == [] then []
    else
      var s := segs[|segs| - 1];
      MappedContents(segs[..|segs| - 1], pm)
      + (if s.PlaceholderSegment? && s.key in pm then [pm[s.key]] else [])
  }

  /** Without text between them, the placeholders give exactly the mapped
      contents, in order. */
  lemma {:induction false} AssembledPlaceholdersOnly(cs: seq<LumiContent>, segs: seq<Segment>,
                                                     pm: map<string, LumiContent>, tagName: string,
                                                     hooks: Hooks, strip: bool)
    requires forall s <- segs :: s.PlaceholderSegment?
    requires Assembled(cs, segs, pm, tagName, hooks, strip)
    ensures cs == MappedContents(segs, pm)
  {
    if segs != [] {
      var init := segs[..|segs| - 1];
      assert forall s <- init :: s in segs;
      assert segs[|segs| - 1] in segs;
      var k := segs[|segs| - 1].key;
      if k in pm {
        AssembledPlaceholdersOnly(cs[..|cs| - 1], init, pm, tagName, hooks, strip);
        assert cs == cs[..|cs| - 1] + [cs[|cs| - 1]];
      } else {
        AssembledPlaceholdersOnly(cs, init, pm, tagName, hooks, strip);
      }
    }
  }

  lemma {:induction false} AssembledPlaceholder(cs: seq<LumiContent>, segs: seq<Segment>, k: string,
                             pm: map<string, LumiContent>, tagName: string, hooks: Hooks, strip: bool)
    requires Assembled(cs, segs, pm, tagName, hooks, strip)
    ensures k in pm ==> Assembled(cs + [pm[k]], segs + [PlaceholderSegment(k)], pm, tagName, hooks, strip)
    ensures k !in pm ==> Assembled(cs, segs + [PlaceholderSegment(k)], pm, tagName, hooks, strip)
  {
    var segs' := segs + [PlaceholderSegment(k)];
    assert segs'[..|segs|] == segs;
    if k in pm {
      var cs' := cs + [pm[k]];
      assert cs'[..|cs|] == cs;
      assert cs'[|cs|] == pm[k];
    }
  }

  lemma {:induction false} AssembledText(cs: seq<LumiContent>, c: seq<LumiContent>, segs: seq<Segment>, t: string,
                      pm: map<string, LumiContent>, tagName: string, hooks: Hooks, strip: bool)
    requires Assembled(cs, segs, pm, tagName, hooks, strip)
    requires |c| <= 1 && (c != [] ==> !IsBlank(t) && IsTextBlockOf(c[0], tagName))
    requires IsBlank(t) || SegmentSpans(if c == [] then [] else c[0].textContent.value.spans, t, hooks, strip)
    ensures Assembled(cs + c, segs + [TextSegment(t)], pm, tagName, hooks, strip)
  {
    if c != [] {
      assert c == [c[0]];
      assert SegmentSpans(c[0].textContent.value.spans, t, hooks, strip);
      AssembledTextBlock(cs, c[0], segs, t, pm, tagName, hooks, strip);
    } else {
      assert cs + c == cs;
      AssembledTextNone(cs, segs, t, pm, tagName, hooks, strip);
    }
  }

  lemma {:induction false} AssembledTextBlock(cs: seq<LumiContent>, c: LumiContent, segs: seq<Segment>, t: string,
                           pm: map<string, LumiContent>, tagName: string, hooks: Hooks, strip: bool)
    requires Assembled(cs, segs, pm, tagName, hooks, strip)
    requires !IsBlank(t) && IsTextBlockOf(c, tagName) && SegmentSpans(c.textContent.value.spans, t, hooks, strip)
    ensures Assembled(cs + [c], segs + [TextSegment(t)], pm, tagName, hooks, strip)
  {
    var segs' := segs + [TextSegment(t)];
    assert segs'[..|segs|] == segs;
    assert segs'[|segs|] == TextSegment(t);
    var cs' := cs + [c];
    assert cs'[..|cs|] == cs;
    assert cs'[|cs|] == c;
  }

  lemma {:induction false} AssembledTextNone(cs: seq<LumiContent>, segs: seq<Segment>, t: string,
                          pm: map<string, LumiContent>, tagName: string, hooks: Hooks, strip: bool)
    requires Assembled(cs, segs, pm, tagName, hooks, strip)
    requires IsBlank(t) || SegmentSpans([], t, hooks, strip)
    ensures Assembled(cs, segs + [TextSegment(t)], pm, tagName, hooks, strip)
  {
    var segs' := segs + [TextSegment(t)];
    assert segs'[..|segs|] == segs;
    assert segs'[|segs|] == TextSegment(t);
  }

  /** The text before, between or after placeholders: a text content when
      it is not blank and spans come out of it; its id is drawn after the
      spans'. */
  method TextSegmentContent(text: string, tagName: string, stripDoubleBrackets: bool, hooks: Hooks, nextId: Id)
    returns (c: seq<LumiContent>, idsAfter: Id)
    ensures |c| <= 1 && (c != [] ==> !IsBlank(text) && IsTextBlockOf(c[0], tagName))
    ensures !IsBlank(text) ==>
      SpansOfText(if c == [] then [] else c[0].textContent.value.spans, text, nextId, false, hooks.sentTokenize,
                  PostprocessWith(hooks, stripDoubleBrackets))
    ensures IsBlank(text) ==> c == [] && idsAfter == nextId
    ensures c != [] ==> c[0].id + 1 == idsAfter
    ensures nextId <= idsAfter
  {
    c, idsAfter := [], nextId;
    StripEmptyIffBlank(text);
    if Strip(text) != [] {
      var cleaned, tags, ids := ParseTextAndExtractInnerTags(text, nextId);
      IdsAllocatedBounds(tags, nextId, ids);
      var spans;
      spans, idsAfter := CreateLumiSpans(cleaned, tags, false, hooks.sentTokenize, PostprocessWith(hooks, stripDoubleBrackets), ids);
      if spans != [] {
        c := [TextBlock(idsAfter, TextContent(tagName, spans))];
        idsAfter := idsAfter + 1;
      }
    }
  }

  /** The contents of a text block: `None` for blank text; otherwise the
      equation placeholders are substituted and the result is cut at the
      content placeholders (see `Assembled`). */
  method ParseHtmlBlock(text: string, tagName: string, pm: map<string, LumiContent>,
                        stripDoubleBrackets: bool, hooks: Hooks, nextId: Id)
    returns (r: Option<seq<LumiContent>>, idsAfter: Id)
    ensures r.None? <==> IsBlank(text)
    ensures r.Some? ==> Assembled(r.value, Segments(hooks.substitute(text, pm)), pm, tagName, hooks, stripDoubleBrackets)
    ensures nextId <= idsAfter
  {
    idsAfter := nextId;
    StripEmptyIffBlank(text);
    if Strip(text) == [] {
      return None, idsAfter;
    }
    var t := hooks.substitute(text, pm);
    var contents: seq<LumiContent> := [];
    var pos: nat := 0;
    ghost var segs: seq<Segment> := [];
    var m := NextPlaceholder(t, 0);
    while m.Some?
      invariant pos <= |t|
      invariant m == NextPlaceholder(t, pos)
      invariant SegmentsFrom(t, pos, segs) == Segments(t)
      invariant Assembled(contents, segs, pm, tagName, hooks, stripDoubleBrackets)
      invariant nextId <= idsAfter
      decreases |t| - pos
    {
      var s, e := m.value.0, m.value.1;
      SegmentsFromStep(t, pos, s, e, segs);
      if s > pos {
        var pre := t[pos..s];
        var c;
        c, idsAfter := TextSegmentContent(pre, tagName, stripDoubleBrackets, hooks, idsAfter);
        AssembledText(contents, c, segs, pre, pm, tagName, hooks, stripDoubleBrackets);
        contents := contents + c;
        segs := segs + [TextSegment(pre)];
      }
      var key := t[s..e];
      AssembledPlaceholder(contents, segs, key, pm, tagName, hooks, stripDoubleBrackets);
      if key in pm {
        contents := contents + [pm[key]];
      }
      segs := segs + [PlaceholderSegment(key)];
      pos := e;
      m := NextPlaceholder(t, pos);
    }
    if pos < |t| {
      var post := t[pos..];
      var c;
      c, idsAfter := TextSegmentContent(post, tagName, stripDoubleBrackets, hooks, idsAfter);
      AssembledText(contents, c, segs, post, pm, tagName, hooks, stripDoubleBrackets);
      contents := contents + c;
      segs := segs + [TextSegment(post)];
    }
    r := Some(contents);
  }

  // ---------------------------------------------------------------------
  // Model output to spans
  // ---------------------------------------------------------------------

  /** The spans of a model answer: the markdown is rendered and parsed
      (`toNodes`), and only the text of the first top-level node is parsed
      for inline tags and cut into spans. */
  method ConvertRawOutputToSpans(outputText: string, skipTokenize: bool, stripDoubleBrackets: bool,
                                 toNodes: string -> seq<Node>, hooks: Hooks, nextId: Id)
    returns (spans: seq<LumiSpan>, idsAfter: Id)
    ensures toNodes(outputText) == [] ==> spans == [] && idsAfter == nextId
    ensures toNodes(outputText) != [] ==>
      var t := hooks.getText(toNodes(outputText)[0]);
      && SpansOfText(spans, t, nextId, skipTokenize, hooks.sentTokenize, PostprocessWith(hooks, stripDoubleBrackets))
      && (IsBlank(t) && NoTagFrom(t, 0) ==> spans == [])
      && (!IsBlank(t) && NoTagFrom(t, 0) && skipTokenize ==>
            |spans| == 1 && spans[0].text == hooks.postprocess(t, stripDoubleBrackets) && spans[0].innerTags == [])
    ensures nextId <= idsAfter
  {
    var nodes := toNodes(outputText);
    if nodes == [] {
      return [], nextId;
    }
    var text := hooks.getText(nodes[0]);
    var cleaned, tags, ids := ParseTextAndExtractInnerTags(text, nextId);
    IdsAllocatedBounds(tags, nextId, ids);
    StripEmptyIffBlank(cleaned);
    spans, idsAfter := CreateLumiSpans(cleaned, tags, skipTokenize, hooks.sentTokenize, PostprocessWith(hooks, stripDoubleBrackets), ids);
  }
}
