/** An abstract parsed HTML document: elements with a name and children,
    and text nodes. Parsing, serialisation and text extraction belong to the
    HTML library and are parameters of the modules that use this tree. */
module HtmlTree {

  /** Elements compare by name, attributes and children, as the HTML
      library's tags do. */
  datatype Node =
    | Element(name: string, attrs: map<string, string>, children: seq<Node>)
    | TextNode(text: string)

  predicate IsElementNamed(n: Node, name: string)
  {
    n.Element? && n.name == name
  }

  /** The nodes below `ns`, in document order: each node, then its
      descendants, then its following siblings (the order in which the
      parser's recursive child generator yields them). */
  function Walk(ns: seq<Node>): (r: seq<Node>)
    ensures |r| >= |ns|
    decreases ns
  {
    if ns == [] then []
    else
      [ns[0]] + (if ns[0].Element? then Walk(ns[0].children) else []) + Walk(ns[1..])
  }

  /** The descendants of a node, in document order. */
  function Descendants(n: Node): seq<Node>
  {
    if n.Element? then Walk(n.children) else []
  }

  /** In the walk, every node is followed at once by all of its
      descendants, in order. */
  lemma {:induction false} WalkDescendantsFollow(ns: seq<Node>, i: nat)
    requires i < |Walk(ns)|
    ensures i + 1 + |Descendants(Walk(ns)[i])| <= |Walk(ns)|
    ensures Walk(ns)[i + 1..i + 1 + |Descendants(Walk(ns)[i])|] == Descendants(Walk(ns)[i])
    decreases ns, 1
  {
    WalkUnfold(ns);
    var inner := Descendants(ns[0]);
    if i == 0 {
    } else if i <= |inner| {
      WalkFollowInChildren(ns, i);
    } else {
      WalkFollowInSiblings(ns, i);
    }
  }

  lemma {:induction false} WalkFollowInChildren(ns: seq<Node>, i: nat)
    requires ns != [] && ns[0].Element? && 1 <= i <= |Walk(ns[0].children)|
    ensures i + 1 + |Descendants(Walk(ns)[i])| <= |Walk(ns)|
    ensures Walk(ns)[i + 1..i + 1 + |Descendants(Walk(ns)[i])|] == Descendants(Walk(ns)[i])
    decreases ns, 0
  {
    var inner := Walk(ns[0].children);
    WalkUnfold(ns);
    WalkDescendantsFollow(ns[0].children, i - 1);
    FollowWithin(Walk(ns), [ns[0]], inner, Walk(ns[1..]), i - 1, Descendants(inner[i - 1]), i);
  }

  lemma {:induction false} WalkFollowInSiblings(ns: seq<Node>, i: nat)
    requires ns != []
    requires |Descendants(ns[0])| < i < |Walk(ns)|
    ensures i + 1 + |Descendants(Walk(ns)[i])| <= |Walk(ns)|
    ensures Walk(ns)[i + 1..i + 1 + |Descendants(Walk(ns)[i])|] == Descendants(Walk(ns)[i])
    decreases ns, 0
  {
    var pre := [ns[0]] + Descendants(ns[0]);
    var rest := Walk(ns[1..]);
    WalkUnfold(ns);
    var k := i - |pre|;
    WalkDescendantsFollow(ns[1..], k);
    FollowAfter(Walk(ns), pre, rest, k, Descendants(rest[k]), i);
  }

  lemma {:induction false} WalkUnfold(ns: seq<Node>)
    requires ns != []
    ensures Walk(ns) == [ns[0]] + Descendants(ns[0]) + Walk(ns[1..])
  {
  }

  lemma {:induction false} FollowAfter(w: seq<Node>, pre: seq<Node>, rest: seq<Node>, k: nat, d: seq<Node>, i: nat)
    requires w == pre + rest && i == |pre| + k
    requires k + 1 + |d| <= |rest| && rest[k + 1..k + 1 + |d|] == d
    ensures i + 1 + |d| <= |w|
    ensures w[i] == rest[k]
    ensures w[i + 1..i + 1 + |d|] == d
  {
    assert forall j :: k + 1 <= j < k + 1 + |d| ==> w[|pre| + j] == rest[j];
  }

  lemma {:induction false} FollowWithin(w: seq<Node>, pre: seq<Node>, part: seq<Node>, post: seq<Node>, k: nat, d: seq<Node>, i: nat)
    requires w == pre + part + post && i == |pre| + k
    requires k + 1 + |d| <= |part| && part[k + 1..k + 1 + |d|] == d
    ensures i + 1 + |d| <= |w|
    ensures w[i] == part[k]
    ensures w[i + 1..i + 1 + |d|] == d
  {
    assert forall j :: k + 1 <= j < k + 1 + |d| ==> w[|pre| + j] == part[j];
  }
}
