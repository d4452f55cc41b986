/** Lists: a `ul` or `ol` element becomes a list content with one item per
    direct `li` child; an item's own text is parsed for inline tags and cut
    into spans, and its first nested list becomes its sub-list. */
module ConvertListContent {
  import opened Wrappers
  import opened Text
  import opened LumiDoc
  import opened HtmlTree
  import opened ImportTags
  import opened ConvertLumiSpans

  /** The operations the list and block builders take from the HTML library
      and the markdown helpers: node serialisation, HTML unescaping,
      equation-placeholder substitution, the sentence splitter, span-text
      post-processing (with the strip-double-brackets flag) and node text
      extraction. */
  datatype Hooks = Hooks(
    serialize: Node -> string,
    unescape: string -> string,
    substitute: (string, map<string, LumiContent>) -> string,
    sentTokenize: string -> seq<string>,
    postprocess: (string, bool) -> string,
    getText: Node -> string)

  /** The post-processing of span text with the strip-double-brackets flag fixed. */
  function PostprocessWith(hooks: Hooks, strip: bool): string -> string
  {
    s => hooks.postprocess(s, strip)
  }

  const OrderedListTag := "ol"
  const UnorderedListTag := "ul"

  predicate IsListTag(name: string)
  {
    name == OrderedListTag || name == UnorderedListTag
  }

  predicate IsList(n: Node)
  {
    n.Element? && IsListTag(n.name)
  }

  /** The direct `li` children, in order. */
  function ListItemsOf(children: seq<Node>): (r: seq<Node>)
    ensures forall k :: 0 <= k < |r| ==> r[k] in children && IsElementNamed(r[k], "li")
  {
    if children == [] then []
    else
      var c := children[|children| - 1];
      ListItemsOf(children[..|children| - 1]) + (if IsElementNamed(c, "li") then [c] else [])
  }

  /** The index of the first child that is a list. */
  function FirstList(children: seq<Node>): (r: Option<nat>)
    ensures r.Some? ==>
      r.value < |children| && IsList(children[r.value])
      && forall j :: 0 <= j < r.value ==> !IsList(children[j])
    ensures r.None? ==> forall j :: 0 <= j < |children| ==> !IsList(children[j])
  {
    if children == [] then None
    else if IsList(children[0]) then Some(0)
    else
      var r := FirstList(children[1..]);
      if r.Some? then Some(r.value + 1) else None
  }

  /** The unescaped serialisations of `ns`, concatenated. */
  function Serialized(ns: seq<Node>, hooks: Hooks): string
  {
    if ns == [] then ""
    else Serialized(ns[..|ns| - 1], hooks) + hooks.unescape(hooks.serialize(ns[|ns| - 1]))
  }

  /** What child `c` of an item contributes to the item's text: nothing for
      the sub-list, the inner nodes of a `p`, the node itself otherwise. */
  function Contribution(c: Node, isSubList: bool, hooks: Hooks): string
  {
    if isSubList then ""
    else if IsElementNamed(c, "p") then Serialized(c.children, hooks)
    else hooks.unescape(hooks.serialize(c))
  }

  /** The raw text of an item whose first nested list is at `first`. */
  function ItemRaw(children: seq<Node>, first: Option<nat>, hooks: Hooks): string
  {
    if children == [] then ""
    else
      var k := |children| - 1;
      ItemRaw(children[..k], first, hooks) + Contribution(children[k], first == Some(k), hooks)
  }

  /** The text an item is parsed from: its raw text with the equation
      placeholders substituted. */
  function ItemText(li: Node, pm: map<string, LumiContent>, hooks: Hooks): string
    requires li.Element?
  {
    hooks.substitute(ItemRaw(li.children, FirstList(li.children), hooks), pm)
  }

  /** The list content for `n`, or `None` when `n` is not a list. The
      content's id is drawn after every id of its items. */
  method GetListContentFromTag(n: Node, pm: map<string, LumiContent>, stripDoubleBrackets: bool,
                               hooks: Hooks, nextId: Id)
    returns (r: Option<LumiContent>, idsAfter: Id)
    ensures r.None? <==> !IsList(n)
    ensures r.None? ==> idsAfter == nextId
    ensures r.Some? ==>
      && r.value.listContent.Some?
      && r.value.textContent.None? && r.value.imageContent.None?
      && r.value.figureContent.None? && r.value.htmlFigureContent.None?
      && ListShaped(r.value.listContent.value, n, pm, hooks, stripDoubleBrackets)
      && nextId <= r.value.id && idsAfter == r.value.id + 1
    decreases n, 1
  {
    if !IsList(n) {
      return None, nextId;
    }
    var items: seq<ListItem> := [];
    idsAfter := nextId;
    for i := 0 to |n.children|
      invariant nextId <= idsAfter
      invariant ItemsShaped(items, ListItemsOf(n.children[..i]), pm, hooks, stripDoubleBrackets)
    {
      var c := n.children[i];
      assert n.children[..i + 1][..i] == n.children[..i];
      if IsElementNamed(c, "li") {
        var item;
        item, idsAfter := BuildListItem(c, pm, stripDoubleBrackets, hooks, idsAfter);
        ItemsShapedSnoc(items, ListItemsOf(n.children[..i]), item, c, pm, hooks, stripDoubleBrackets);
        items := items + [item];
      }
    }
    assert n.children[..|n.children|] == n.children;
    r := Some(ListBlock(idsAfter, ListContent(items, n.name == OrderedListTag)));
    idsAfter := idsAfter + 1;
  }

  /** What a list content promises about the list node it came from:
      ordered as that list, with one item per `li` of it, each built from
      its `li`. */
  ghost predicate ListShaped(lc: ListContent, list: Node, pm: map<string, LumiContent>, hooks: Hooks, strip: bool)
    decreases list, 1
  {
    list.Element?
    && lc.isOrdered == (list.name == OrderedListTag)
    && |lc.listItems| == |ListItemsOf(list.children)|
    && forall j :: 0 <= j < |lc.listItems| ==> ItemShaped(lc.listItems[j], ListItemsOf(list.children)[j], pm, hooks, strip)
  }

  /** Each item is built from the `li` at the same place. */
  ghost predicate ItemsShaped(items: seq<ListItem>, lis: seq<Node>, pm: map<string, LumiContent>, hooks: Hooks, strip: bool)
  {
    |items| == |lis| && forall j :: 0 <= j < |items| ==> ItemShaped(items[j], lis[j], pm, hooks, strip)
  }

  /** Appending an item built from a further `li` keeps the items in step. */
  lemma {:induction false} ItemsShapedSnoc(items: seq<ListItem>, lis: seq<Node>, item: ListItem, li: Node,
                                           pm: map<string, LumiContent>, hooks: Hooks, strip: bool)
    requires ItemsShaped(items, lis, pm, hooks, strip) && ItemShaped(item, li, pm, hooks, strip)
    ensures ItemsShaped(items + [item], lis + [li], pm, hooks, strip)
  {
    var is', ls' := items + [item], lis + [li];
    forall j | 0 <= j < |is'| ensures ItemShaped(is'[j], ls'[j], pm, hooks, strip) {
      if j < |items| {
        assert is'[j] == items[j] && ls'[j] == lis[j];
      }
    }
  }

  /** What an item promises about the `li` it came from: a sub-list exactly
      when the `li` has a nested list, built from that list without the
      strip flag; and the spans created from the item's text, none when
      that text is blank and untagged. */
  ghost predicate ItemShaped(item: ListItem, li: Node, pm: map<string, LumiContent>, hooks: Hooks, strip: bool)
    decreases li, 0
  {
    li.Element?
    && (item.subListContent.Some? <==> FirstList(li.children).Some?)
    && (item.subListContent.Some? ==>
          ListShaped(item.subListContent.value, li.children[FirstList(li.children).value], pm, hooks, false))
    && (exists k :: SpansOfText(item.spans, ItemText(li, pm, hooks), k, false, hooks.sentTokenize, PostprocessWith(hooks, strip)))
    && (IsBlank(ItemText(li, pm, hooks)) && NoTagFrom(ItemText(li, pm, hooks), 0) ==> item.spans == [])
  }

  /** One `li`: its children are scanned once; the first nested list is
      converted (without the strip-double-brackets flag) and kept as the
      sub-list, `p` children are unwrapped, and everything else is
      serialised into the item's text. */
  method BuildListItem(li: Node, pm: map<string, LumiContent>, stripDoubleBrackets: bool,
                       hooks: Hooks, nextId: Id)
    returns (item: ListItem, idsAfter: Id)
    requires li.Element?
    ensures nextId <= idsAfter
    ensures ItemShaped(item, li, pm, hooks, stripDoubleBrackets)
    decreases li, 0
  {
    var raw := "";
    var subList: Option<ListContent> := None;
    idsAfter := nextId;
    ghost var first := FirstList(li.children);
    for i := 0 to |li.children|
      invariant nextId <= idsAfter
      invariant raw == ItemRaw(li.children[..i], first, hooks)
      invariant subList.Some? <==> FirstList(li.children[..i]).Some?
      invariant subList.Some? ==> first.Some? && first.value < i
      invariant subList.Some? ==> ListShaped(subList.value, li.children[first.value], pm, hooks, false)
    {
      var c := li.children[i];
      assert li.children[..i + 1][..i] == li.children[..i];
      FirstListPrefix(li.children, i);
      if IsList(c) && subList.None? {
        var nested;
        nested, idsAfter := GetListContentFromTag(c, pm, false, hooks, idsAfter);
        subList := Some(nested.value.listContent.value);
        raw := raw + "";
      } else if IsElementNamed(c, "p") {
        var pText := "";
        for j := 0 to |c.children|
          invariant pText == Serialized(c.children[..j], hooks)
        {
          assert c.children[..j + 1][..j] == c.children[..j];
          pText := pText + hooks.unescape(hooks.serialize(c.children[j]));
        }
        assert c.children[..|c.children|] == c.children;
        raw := raw + pText;
      } else {
        raw := raw + hooks.unescape(hooks.serialize(c));
      }
    }
    assert li.children[..|li.children|] == li.children;
    raw := hooks.substitute(raw, pm);
    var spans;
    ghost var k := idsAfter;
    spans, idsAfter := ItemSpans(raw, PostprocessWith(hooks, stripDoubleBrackets), hooks, idsAfter);
    item := ListItem(spans, subList);
    assert raw == ItemText(li, pm, hooks);
    assert SpansOfText(item.spans, ItemText(li, pm, hooks), k, false, hooks.sentTokenize, PostprocessWith(hooks, stripDoubleBrackets));
  }

  /** The spans of an item's text: its inline tags are extracted and, unless
      the text is blank and untagged, it is cut into spans. */
  method ItemSpans(raw: string, postprocess: string -> string, hooks: Hooks, nextId: Id)
    returns (spans: seq<LumiSpan>, idsAfter: Id)
    ensures SpansOfText(spans, raw, nextId, false, hooks.sentTokenize, postprocess)
    ensures IsBlank(raw) && NoTagFrom(raw, 0) ==> spans == []
    ensures nextId <= idsAfter
  {
    var cleaned, tags, ids := ParseTextAndExtractInnerTags(raw, nextId);
    idsAfter := ids;
    spans := [];
    StripEmptyIffBlank(cleaned);
    if Strip(cleaned) != [] || tags != [] {
      spans, idsAfter := CreateLumiSpans(cleaned, tags, false, hooks.sentTokenize, postprocess, idsAfter);
    }
  }

  /** Scanning the children in order, the first list found among the first
      `i + 1` is the first list of all of them once it is found. */
  lemma {:induction false} FirstListPrefix(children: seq<Node>, i: nat)
    requires i < |children|
    ensures FirstList(children[..i + 1]).Some? <==> FirstList(children[..i]).Some? || IsList(children[i])
    ensures FirstList(children[..i]).None? && IsList(children[i]) ==> FirstList(children) == Some(i)
    ensures FirstList(children[..i]).Some? ==> FirstList(children) == FirstList(children[..i])
  {
    var r, r1, all := FirstList(children[..i]), FirstList(children[..i + 1]), FirstList(children);
    if r.Some? {
      assert children[..i][r.value] == children[r.value];
      assert forall j :: 0 <= j < r.value ==> children[..i][j] == children[j];
      FirstListUnique(children, r.value);
      FirstListUnique(children[..i + 1], r.value);
    } else if IsList(children[i]) {
      assert forall j :: 0 <= j < i ==> children[..i][j] == children[j];
      FirstListUnique(children, i);
      FirstListUnique(children[..i + 1], i);
    } else {
      assert forall j :: 0 <= j < i ==> children[..i][j] == children[..i + 1][j];
    }
  }

  /** The first list is the list with no list before it. */
  lemma {:induction false} FirstListUnique(children: seq<Node>, k: nat)
    requires k < |children| && IsList(children[k])
    requires forall j :: 0 <= j < k ==> !IsList(children[j])
    ensures FirstList(children) == Some(k)
    decreases k
  {
    if k > 0 {
      assert !IsList(children[0]);
      assert forall j :: 0 <= j < k - 1 ==> children[1..][j] == children[j + 1];
      FirstListUnique(children[1..], k - 1);
    }
  }
}
