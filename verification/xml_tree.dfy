/**
  The DOM tree the XML helpers work on, as an immutable value: elements with
  a tag, an attribute map and ordered children, and text nodes. Defines the
  two DOM traversals the helpers delegate to (`Element.getElementsByTagName`,
  section 1.2 of W3C DOM Level 2 Core, and `Node.textContent`, section 1.4 of
  W3C DOM Level 3 Core) and `Node.normalize`, which the writer applies before
  serialising.
*/
module XmlTree {
  import opened JavaLang

  datatype Node =
    | Element(tag: string, attrs: map<string, string>, children: seq<Node>)
    | Text(data: string)

  /** An `org.w3c.dom.Element`: a node that is an element. */
  type Element = n: Node | n.Element? witness Element("", map[], [])

  /** An `org.w3c.dom.Document`: at most one root element. */
  datatype Document = Document(root: Option<Element>)

  /** `getElementsByTagName` matches the tag exactly, or every element for `"*"`. */
  predicate TagMatches(n: Node, name: string) {
    n.Element? && (name == "*" || n.tag == name)
  }

  // ---------------------------------------------------------------------
  // Descendants in document order

  /** Matching elements of the subtree rooted at `n`, `n` included, in preorder. */
  function SubtreeByTag(n: Node, name: string): (r: seq<Node>)
    ensures forall x :: x in r ==> TagMatches(x, name)
    decreases n, 1
  {
    match n
    case Text(_) => []
    case Element(_, _, children) =>
      (if TagMatches(n, name) then [n] else []) + ForestByTag(children, name)
  }

  /** Matching elements of the subtrees rooted at `cs`, in preorder. */
  function ForestByTag(cs: seq<Node>, name: string): (r: seq<Node>)
    ensures forall x :: x in r ==> TagMatches(x, name)
    decreases cs, 0
  {
    if |cs| == 0 then [] else SubtreeByTag(cs[0], name) + ForestByTag(cs[1..], name)
  }

  /** `e.getElementsByTagName(name)`: proper descendants only, in preorder. */
  function ElementsByTagName(e: Element, name: string): (r: seq<Element>)
    ensures forall i :: 0 <= i < |r| ==> TagMatches(r[i], name)
  {
    var r := ForestByTag(e.children, name);
    assert forall i :: 0 <= i < |r| ==> r[i] in r && r[i].Element?;
    r
  }

  /** `x` is `n` itself or lies below it. */
  ghost predicate InSubtree(x: Node, n: Node)
    decreases n, 1
  {
    x == n || (n.Element? && InForest(x, n.children))
  }

  /** `x` lies in the subtree of one of `cs`. */
  ghost predicate InForest(x: Node, cs: seq<Node>)
    decreases cs, 0
  {
    exists i :: 0 <= i < |cs| && InSubtree(x, cs[i])
  }

  /** `x` is a proper descendant of `n`. */
  ghost predicate IsDescendant(x: Node, n: Node) {
    n.Element? && InForest(x, n.children)
  }

  lemma InForestCons(x: Node, cs: seq<Node>)
    requires |cs| > 0
    ensures InForest(x, cs) <==> InSubtree(x, cs[0]) || InForest(x, cs[1..])
  {
    if InForest(x, cs) && !InSubtree(x, cs[0]) {
      var i :| 0 <= i < |cs| && InSubtree(x, cs[i]);
      assert cs[1..][i - 1] == cs[i];
    }
    if InForest(x, cs[1..]) {
      var i :| 0 <= i < |cs[1..]| && InSubtree(x, cs[1..][i]);
      assert cs[i + 1] == cs[1..][i];
    }
  }

  lemma {:induction false} SubtreeByTagMembers(x: Node, n: Node, name: string)
    ensures x in SubtreeByTag(n, name) <==> TagMatches(x, name) && InSubtree(x, n)
    decreases n, 1
  {
    match n
    case Text(_) =>
    case Element(_, _, children) =>
      ForestByTagMembers(x, children, name);
  }

  lemma {:induction false} ForestByTagMembers(x: Node, cs: seq<Node>, name: string)
    ensures x in ForestByTag(cs, name) <==> TagMatches(x, name) && InForest(x, cs)
    decreases cs, 0
  {
    if |cs| > 0 {
      SubtreeByTagMembers(x, cs[0], name);
      ForestByTagMembers(x, cs[1..], name);
      InForestCons(x, cs);
    }
  }

  /**
    The tag lookup finds exactly the matching proper descendants: not only
    direct children, and never the element itself.
  */
  lemma ElementsByTagNameMembers(e: Element, name: string, x: Node)
    ensures x in ElementsByTagName(e, name) <==> TagMatches(x, name) && IsDescendant(x, e)
  {
    ForestByTagMembers(x, e.children, name);
  }

  /** The elements of `xs` whose tag matches `name`, in order. */
  function FilterTag(xs: seq<Node>, name: string): (r: seq<Node>)
    ensures forall x :: x in r <==> x in xs && TagMatches(x, name)
  {
    if |xs| == 0 then []
    else (if TagMatches(xs[0], name) then [xs[0]] else []) + FilterTag(xs[1..], name)
  }

  lemma FilterTagAppend(a: seq<Node>, b: seq<Node>, name: string)
    ensures FilterTag(a + b, name) == FilterTag(a, name) + FilterTag(b, name)
  {
    if |a| > 0 {
      assert (a + b)[1..] == a[1..] + b;
      FilterTagAppend(a[1..], b, name);
    } else {
      assert a + b == b;
    }
  }

  lemma {:induction false} SubtreeByTagIsFilter(n: Node, name: string)
    ensures SubtreeByTag(n, name) == FilterTag(SubtreeByTag(n, "*"), name)
    decreases n, 1
  {
    match n
    case Text(_) =>
    case Element(_, _, children) =>
      ForestByTagIsFilter(children, name);
      FilterTagAppend([n], ForestByTag(children, "*"), name);
  }

  lemma {:induction false} ForestByTagIsFilter(cs: seq<Node>, name: string)
    ensures ForestByTag(cs, name) == FilterTag(ForestByTag(cs, "*"), name)
    decreases cs, 0
  {
    if |cs| > 0 {
      SubtreeByTagIsFilter(cs[0], name);
      ForestByTagIsFilter(cs[1..], name);
      FilterTagAppend(SubtreeByTag(cs[0], "*"), ForestByTag(cs[1..], "*"), name);
    }
  }

  /**
    Looking up a tag is the same as listing every descendant element
    (`"*"`) and keeping those with that tag, in the same order.
  */
  lemma ElementsByTagNameIsFilter(e: Element, name: string)
    ensures ElementsByTagName(e, name) == FilterTag(ElementsByTagName(e, "*"), name)
  {
    ForestByTagIsFilter(e.children, name);
  }

  // ---------------------------------------------------------------------
  // Text content

  /** `n.getTextContent()`: the text of every descendant text node, in document order. */
  function TextContent(n: Node): string
    decreases n, 1
  {
    match n
    case Text(d) => d
    case Element(_, _, children) => ForestText(children)
  }

  function ForestText(cs: seq<Node>): string
    decreases cs, 0
  {
    if |cs| == 0 then "" else TextContent(cs[0]) + ForestText(cs[1..])
  }

  lemma ForestTextCons(c: Node, cs: seq<Node>)
    ensures ForestText([c] + cs) == TextContent(c) + ForestText(cs)
  {
    assert ([c] + cs)[1..] == cs;
  }

  // ---------------------------------------------------------------------
  // Normal form: no empty text nodes and no two text nodes side by side

  ghost predicate IsNormal(n: Node)
    decreases n, 1
  {
    n.Element? ==> IsNormalForest(n.children)
  }

  ghost predicate IsNormalForest(cs: seq<Node>)
    decreases cs, 0
  {
    && (forall i :: 0 <= i < |cs| ==> IsNormal(cs[i]))
    && (forall i :: 0 <= i < |cs| && cs[i].Text? ==> cs[i].data != "")
    && (forall i :: 0 <= i < |cs| - 1 && cs[i].Text? ==> !cs[i + 1].Text?)
  }

  /** `n.normalize()`: merges adjacent text nodes and drops empty ones, at every depth. */
  function Normalize(n: Node): (r: Node)
    ensures r.Element? <==> n.Element?
    decreases n, 1
  {
    match n
    case Text(_) => n
    case Element(tag, attrs, children) => Element(tag, attrs, NormalizeForest(children))
  }

  function NormalizeForest(cs: seq<Node>): seq<Node>
    decreases cs, 0
  {
    if |cs| == 0 then []
    else
      var rest := NormalizeForest(cs[1..]);
      match cs[0]
      case Text(d) =>
        if d == "" then rest
        else if |rest| > 0 && rest[0].Text? then [Text(d + rest[0].data)] + rest[1..]
        else [Text(d)] + rest
      case Element(_, _, _) => [Normalize(cs[0])] + rest
  }

  /** Normalising never changes the text an element reads as. */
  lemma {:induction false} NormalizeKeepsText(n: Node)
    ensures TextContent(Normalize(n)) == TextContent(n)
    decreases n, 1
  {
    match n
    case Text(_) =>
    case Element(_, _, children) => NormalizeForestKeepsText(children);
  }

  lemma {:induction false} NormalizeForestKeepsText(cs: seq<Node>)
    ensures ForestText(NormalizeForest(cs)) == ForestText(cs)
    decreases cs, 0
  {
    if |cs| > 0 {
      var rest := NormalizeForest(cs[1..]);
      NormalizeForestKeepsText(cs[1..]);
      match cs[0]
      case Text(d) =>
        if d == "" {
        } else if |rest| > 0 && rest[0].Text? {
          ForestTextCons(Text(d + rest[0].data), rest[1..]);
          ForestTextCons(rest[0], rest[1..]);
          assert rest == [rest[0]] + rest[1..];
        } else {
          ForestTextCons(Text(d), rest);
        }
      case Element(_, _, _) =>
        NormalizeKeepsText(cs[0]);
        ForestTextCons(Normalize(cs[0]), rest);
    }
  }

  /** Normalising yields the normal form. */
  lemma {:induction false} NormalizeIsNormal(n: Node)
    ensures IsNormal(Normalize(n))
    decreases n, 1
  {
    match n
    case Text(_) =>
    case Element(_, _, children) => NormalizeForestIsNormal(children);
  }

  lemma {:induction false} NormalizeForestIsNormal(cs: seq<Node>)
    ensures IsNormalForest(NormalizeForest(cs))
    decreases cs, 0
  {
    if |cs| > 0 {
      NormalizeForestIsNormal(cs[1..]);
      if cs[0].Element? {
        NormalizeIsNormal(cs[0]);
      }
    }
  }

  /** A tree already in normal form is left alone. */
  lemma {:induction false} NormalizeNormal(n: Node)
    requires IsNormal(n)
    ensures Normalize(n) == n
    decreases n, 1
  {
    match n
    case Text(_) =>
    case Element(_, _, children) => NormalizeForestNormal(children);
  }

  lemma {:induction false} NormalizeForestNormal(cs: seq<Node>)
    requires IsNormalForest(cs)
    ensures NormalizeForest(cs) == cs
    decreases cs, 0
  {
    if |cs| > 0 {
      NormalizeForestNormal(cs[1..]);
      if cs[0].Element? {
        NormalizeNormal(cs[0]);
      } else {
        assert |cs| > 1 ==> !cs[1].Text?;
      }
      assert cs == [cs[0]] + cs[1..];
    }
  }

  /** A forest of elements normalises to elements only. */
  lemma {:induction false} NormalizeElements(cs: seq<Node>)
    requires forall c :: c in cs ==> c.Element?
    ensures |NormalizeForest(cs)| == |cs|
    ensures forall i :: 0 <= i < |cs| ==> NormalizeForest(cs)[i] == Normalize(cs[i])
    ensures forall c :: c in NormalizeForest(cs) ==> c.Element?
  {
    if |cs| > 0 {
      assert cs[0] in cs;
      assert forall c :: c in cs[1..] ==> c in cs;
      NormalizeElements(cs[1..]);
    }
  }

  /** Normalising twice is normalising once. */
  lemma NormalizeIdempotent(n: Node)
    ensures Normalize(Normalize(n)) == Normalize(n)
  {
    NormalizeIsNormal(n);
    NormalizeNormal(Normalize(n));
  }

  // ---------------------------------------------------------------------
  // Element children

  /** The nodes of `cs` that are elements, in order (text nodes dropped). */
  function ElementChildren(cs: seq<Node>): (r: seq<Node>)
    ensures forall x :: x in r <==> x in cs && x.Element?
    ensures |r| <= |cs|
  {
    if |cs| == 0 then []
    else ElementChildren(cs[..|cs| - 1]) + (if cs[|cs| - 1].Element? then [cs[|cs| - 1]] else [])
  }

  /** Filtering a prefix of the children gives a prefix of the filtered children. */
  lemma {:induction false} ElementChildrenOfPrefix(cs: seq<Node>, m: nat)
    requires m <= |cs|
    ensures |ElementChildren(cs[..m])| <= |ElementChildren(cs)|
    ensures ElementChildren(cs[..m]) == ElementChildren(cs)[..|ElementChildren(cs[..m])|]
    decreases |cs| - m
  {
    if m == |cs| {
      assert cs[..m] == cs;
    } else {
      ElementChildrenOfPrefix(cs, m + 1);
      var longer := cs[..m + 1];
      assert longer[..|longer| - 1] == cs[..m] && longer[|longer| - 1] == cs[m];
      var a, b, all := ElementChildren(cs[..m]), ElementChildren(longer), ElementChildren(cs);
      assert b == a + (if cs[m].Element? then [cs[m]] else []);
      assert a == b[..|a|];
      assert b == all[..|b|];
      assert all[..|b|][..|a|] == all[..|a|];
    }
  }

  lemma FrontLast<T>(s: seq<T>)
    requires |s| > 0
    ensures s[..|s| - 1] + [s[|s| - 1]] == s
  {
  }

  /** A forest of elements only is left as it is. */
  lemma {:induction false} ElementChildrenOfElements(cs: seq<Node>)
    requires forall c :: c in cs ==> c.Element?
    ensures ElementChildren(cs) == cs
  {
    if |cs| > 0 {
      var front, last := cs[..|cs| - 1], cs[|cs| - 1];
      assert forall c :: c in front ==> c in cs;
      ElementChildrenOfElements(front);
      assert last.Element?;
      assert ElementChildren(cs) == front + [last];
      FrontLast(cs);
    }
  }

  /**
    Filtering distributes over concatenation and keeps exactly the elements
    of a single node: with these, the element children are the elements of
    `cs` in their order, each as often as it occurs.
  */
  lemma {:induction false} ElementChildrenConcat(a: seq<Node>, b: seq<Node>)
    ensures ElementChildren(a + b) == ElementChildren(a) + ElementChildren(b)
    decreases |b|
  {
    if |b| == 0 {
      assert a + b == a;
    } else {
      var front, last := b[..|b| - 1], b[|b| - 1];
      var tail := if last.Element? then [last] else [];
      ElementChildrenConcat(a, front);
      FrontLast(b);
      SeqAssoc(a, front, [last]);
      ElementChildrenSnoc(a + front, last);
      ElementChildrenSnoc(front, last);
      SeqAssoc(ElementChildren(a), ElementChildren(front), tail);
    }
  }

  lemma ElementChildrenSnoc(cs: seq<Node>, c: Node)
    ensures ElementChildren(cs + [c]) == ElementChildren(cs) + (if c.Element? then [c] else [])
  {
    var s := cs + [c];
    assert s[..|s| - 1] == cs;
  }

  lemma SeqAssoc<T>(a: seq<T>, b: seq<T>, c: seq<T>)
    ensures (a + b) + c == a + (b + c)
  {
  }

  lemma ElementChildrenSingle(c: Node)
    ensures ElementChildren([c]) == (if c.Element? then [c] else [])
  {
    assert [c][..0] == [];
  }

  // ---------------------------------------------------------------------
  // Skeleton: the tree without its text

  /** The tree with every text node below the top removed: tags, attributes and element structure. */
  function Skeleton(n: Node): Node
    decreases n, 1
  {
    match n
    case Text(_) => Text("")
    case Element(tag, attrs, children) => Element(tag, attrs, SkeletonForest(children))
  }

  function SkeletonForest(cs: seq<Node>): seq<Node>
    decreases cs, 0
  {
    if |cs| == 0 then []
    else (if cs[0].Element? then [Skeleton(cs[0])] else []) + SkeletonForest(cs[1..])
  }

  lemma {:induction false} SkeletonForestConcat(a: seq<Node>, b: seq<Node>)
    ensures SkeletonForest(a + b) == SkeletonForest(a) + SkeletonForest(b)
    decreases |a|
  {
    if |a| == 0 {
      assert a + b == b;
    } else {
      SkeletonForestConcat(a[1..], b);
      assert (a + b)[1..] == a[1..] + b;
      assert (a + b)[0] == a[0];
    }
  }

  /** Dropping the text children leaves the skeleton as it was. */
  lemma {:induction false} SkeletonOfElementChildren(cs: seq<Node>)
    ensures SkeletonForest(ElementChildren(cs)) == SkeletonForest(cs)
    decreases |cs|
  {
    if |cs| > 0 {
      var front, last := cs[..|cs| - 1], cs[|cs| - 1];
      var tail := if last.Element? then [last] else [];
      SkeletonOfElementChildren(front);
      SkeletonForestConcat(ElementChildren(front), tail);
      SkeletonForestConcat(front, [last]);
      assert [last][1..] == [];
      FrontLast(cs);
    }
  }

  /** Normalising touches text nodes only: tags, attributes and elements stay as they were. */
  lemma {:induction false} NormalizeKeepsSkeleton(n: Node)
    ensures Skeleton(Normalize(n)) == Skeleton(n)
    decreases n, 1
  {
    match n
    case Text(_) =>
    case Element(_, _, children) => NormalizeForestKeepsSkeleton(children);
  }

  lemma {:induction false} NormalizeForestKeepsSkeleton(cs: seq<Node>)
    ensures SkeletonForest(NormalizeForest(cs)) == SkeletonForest(cs)
    decreases cs, 0
  {
    if |cs| > 0 {
      var rest := NormalizeForest(cs[1..]);
      NormalizeForestKeepsSkeleton(cs[1..]);
      match cs[0]
      case Text(d) =>
        if d == "" {
        } else if |rest| > 0 && rest[0].Text? {
          var merged := [Text(d + rest[0].data)] + rest[1..];
          assert merged[1..] == rest[1..];
        } else {
          assert ([Text(d)] + rest)[1..] == rest;
        }
      case Element(_, _, _) =>
        NormalizeKeepsSkeleton(cs[0]);
        assert ([Normalize(cs[0])] + rest)[1..] == rest;
    }
  }
}
