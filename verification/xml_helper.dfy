/**
  The static query, coercion and mutation helpers of `XMLHelper`
  (src/org/ezze/utils/io/XMLHelper.java), over the immutable tree of
  `XmlTree`. A Java `null` argument or result is `None`. The mutators, which
  change a DOM element in place in Java, return the changed element instead.
*/
module XmlHelper {
  import opened JavaLang
  import opened XmlTree

  /** `getDocumentElement`. */
  function GetDocumentElement(doc: Option<Document>): (r: Option<Element>)
    ensures doc.None? ==> r.None?
    ensures doc.Some? ==> r == doc.value.root
  {
    match doc
    case None => None
    case Some(d) => d.root
  }

  lemma ElementsByTagNameAllMembers(e: Element, name: string)
    ensures forall x :: x in ElementsByTagName(e, name) <==> TagMatches(x, name) && IsDescendant(x, e)
  {
    forall x {
      ElementsByTagNameMembers(e, name, x);
    }
  }

  // ---------------------------------------------------------------------
  // Lookup by tag name

  /** `getChildrenCount`: how many proper descendants carry the tag. */
  function GetChildrenCount(e: Option<Element>, name: Option<string>): (r: nat)
    ensures e.None? || name.None? ==> r == 0
    ensures e.Some? && name.Some? ==>
      (r == 0 <==> forall x :: !(TagMatches(x, name.value) && IsDescendant(x, e.value)))
    ensures e.Some? && name.Some? ==> r == |ElementsByTagName(e.value, name.value)|
  {
    if e.None? || name.None? then 0
    else
      ElementsByTagNameAllMembers(e.value, name.value);
      var list := ElementsByTagName(e.value, name.value);
      assert |list| > 0 ==> list[0] in list;
      |list|
  }

  /** `getChildElement(e, name, index)`: the index-th matching descendant in document order. */
  function GetChildElementByTag(e: Option<Element>, name: Option<string>, index: int): (r: Option<Element>)
    ensures r.Some? <==> e.Some? && name.Some? && 0 <= index < GetChildrenCount(e, name)
    ensures r.Some? ==> TagMatches(r.value, name.value) && IsDescendant(r.value, e.value)
    ensures r.Some? ==> r.value == ElementsByTagName(e.value, name.value)[index]
  {
    if e.None? || name.None? then None
    else
      var list := ElementsByTagName(e.value, name.value);
      if index < 0 || index >= |list| then None
      else
        ElementsByTagNameMembers(e.value, name.value, list[index]);
        Some(list[index])
  }

  /** `getChildElement(e, name)`: the first matching descendant. */
  function GetFirstChildElementByTag(e: Option<Element>, name: Option<string>): (r: Option<Element>)
    ensures r.Some? <==> e.Some? && name.Some? && GetChildrenCount(e, name) > 0
    ensures r.Some? ==> TagMatches(r.value, name.value) && IsDescendant(r.value, e.value)
    ensures r.Some? ==> r.value == ElementsByTagName(e.value, name.value)[0]
  {
    GetChildElementByTag(e, name, 0)
  }

  /** The test `getChildElementWithAttribute` applies to each candidate. */
  predicate HasAttributeValue(x: Element, attrName: Option<string>, attrValue: Option<string>) {
    && attrName.Some? && attrName.value in x.attrs
    && attrValue.Some? && x.attrs[attrName.value] == attrValue.value
  }

  /**
    `getChildElementWithAttribute`: scans the matching descendants in
    document order and returns the first whose attribute is present and
    equal to the value.
  */
  method GetChildElementWithAttribute(e: Option<Element>, name: Option<string>,
                                      attrName: Option<string>, attrValue: Option<string>)
    returns (r: Option<Element>)
    ensures e.None? || name.None? ==> r.None?
    ensures e.Some? && name.Some? ==>
      var list := ElementsByTagName(e.value, name.value);
      && (r.None? <==> forall i :: 0 <= i < |list| ==> !HasAttributeValue(list[i], attrName, attrValue))
      && (r.Some? ==> exists k :: 0 <= k < |list| && list[k] == r.value
                       && HasAttributeValue(list[k], attrName, attrValue)
                       && forall j :: 0 <= j < k ==> !HasAttributeValue(list[j], attrName, attrValue))
  {
    if e.None? || name.None? {
      return None;
    }
    var list := ElementsByTagName(e.value, name.value);
    var childIndex := 0;
    while childIndex < |list|
      invariant 0 <= childIndex <= |list|
      invariant forall j :: 0 <= j < childIndex ==> !HasAttributeValue(list[j], attrName, attrValue)
    {
      if HasAttributeValue(list[childIndex], attrName, attrValue) {
        return Some(list[childIndex]);
      }
      childIndex := childIndex + 1;
    }
    return None;
  }

  // ---------------------------------------------------------------------
  // Positional lookup

  /**
    The loop of `getChildElement(e, index)` as written: every pass reads
    `item(0)`, counting it as the next element when it is one.
  */
  function ScanFirstItem(cs: seq<Node>, index: int, nodes: nat, elements: nat): (r: Option<Element>)
    requires 0 <= index < |cs| && nodes <= |cs|
    requires elements == (if cs[0].Element? then nodes else 0)
    requires cs[0].Element? ==> elements <= index
    ensures r == (if cs[0].Element? then Some(cs[0]) else None)
    decreases |cs| - nodes
  {
    if nodes < |cs| then
      if cs[0].Element? then
        if index == elements then Some(cs[0]) else ScanFirstItem(cs, index, nodes + 1, elements + 1)
      else ScanFirstItem(cs, index, nodes + 1, elements)
    else None
  }

  /**
    `getChildElement(e, index)` as written: `None` for a missing element or an
    index outside the child nodes (text included); otherwise the first child
    node when it is an element, whatever the index.
  */
  function GetChildElementAt(e: Option<Element>, index: int): (r: Option<Element>)
    ensures e.None? || index < 0 || index >= |e.value.children| ==> r.None?
    ensures e.Some? && 0 <= index < |e.value.children| ==>
      r == (if e.value.children[0].Element? then Some(e.value.children[0]) else None)
  {
    if e.None? then None
    else if index < 0 || index >= |e.value.children| then None
    else ScanFirstItem(e.value.children, index, 0, 0)
  }

  /** `getChildElement(e)`: `getChildElement(e, 0)`. */
  function GetFirstChildElement(e: Option<Element>): (r: Option<Element>)
    ensures r.Some? <==> e.Some? && |e.value.children| > 0 && e.value.children[0].Element?
    ensures r.Some? ==> r.value == e.value.children[0]
  {
    GetChildElementAt(e, 0)
  }

  /**
    The loop `getChildElement(e, index)` was evidently meant to run: reading
    `item(nodes)` on each pass.
  */
  function ScanItems(cs: seq<Node>, index: int, nodes: nat, elements: nat): (r: Option<Element>)
    requires 0 <= index && nodes <= |cs|
    requires elements == |ElementChildren(cs[..nodes])| <= index
    ensures r == (if index < |ElementChildren(cs)| then Some(ElementChildren(cs)[index]) else None)
    decreases |cs| - nodes
  {
    if nodes < |cs| then
      assert cs[..nodes + 1][..nodes] == cs[..nodes];
      ElementChildrenOfPrefix(cs, nodes + 1);
      if cs[nodes].Element? then
        if index == elements then Some(cs[nodes]) else ScanItems(cs, index, nodes + 1, elements + 1)
      else ScanItems(cs, index, nodes + 1, elements)
    else
      assert cs[..nodes] == cs;
      None
  }

  /**
    Corrected positional lookup: the index-th child that is an element,
    counting element children only, or `None` when there is no such child.
  */
  function ElementChildAt(e: Option<Element>, index: int): (r: Option<Element>)
    ensures e.None? || index < 0 ==> r.None?
    ensures e.Some? && 0 <= index ==>
      var elems := ElementChildren(e.value.children);
      r == (if index < |elems| then Some(elems[index]) else None)
  {
    if e.None? || index < 0 then None
    else
      assert e.value.children[..0] == [];
      ScanItems(e.value.children, index, 0, 0)
  }

  /**
    Where the two differ: with indentation text before the first element,
    the as-written lookup finds nothing; with two element children it
    returns the first for index 1.
  */
  lemma PositionalLookupReadsFirstItem()
    ensures var item := Element("item", map[], []);
            GetChildElementAt(Some(Element("list", map[], [Text("\n  "), item])), 0) == None
            && ElementChildAt(Some(Element("list", map[], [Text("\n  "), item])), 0) == Some(item)
    ensures var a := Element("a", map[], []); var b := Element("b", map[], []);
            GetChildElementAt(Some(Element("list", map[], [a, b])), 1) == Some(a)
            && ElementChildAt(Some(Element("list", map[], [a, b])), 1) == Some(b)
  {
    var item := Element("item", map[], []);
    var cs := [Text("\n  "), item];
    assert cs[..1] == [Text("\n  ")];
    assert cs[..1][..0] == [];
    assert ElementChildren(cs[..1]) == [];
    assert ElementChildren(cs) == [item];
    var a := Element("a", map[], []);
    var b := Element("b", map[], []);
    var ab := [a, b];
    assert ab[..1] == [a];
    assert ab[..1][..0] == [];
    assert ElementChildren(ab) == [a, b];
  }

  // ---------------------------------------------------------------------
  // Mutators

  /**
    `addChildElement(doc, e, name)`: a new empty element with the tag,
    appended as the last child; returns the changed parent and the new child.
  */
  function AddChildElement(doc: Option<Document>, e: Option<Element>, name: Option<string>)
    : (r: Option<(Element, Element)>)
    ensures r.Some? <==> doc.Some? && e.Some? && name.Some?
    ensures r.Some? ==>
      var (parent, child) := r.value;
      && child.tag == name.value && child.attrs == map[] && child.children == []
      && parent.tag == e.value.tag && parent.attrs == e.value.attrs
      && |parent.children| == |e.value.children| + 1
      && parent.children[..|e.value.children|] == e.value.children
      && parent.children[|e.value.children|] == child
  {
    if doc.None? || e.None? || name.None? then None
    else
      var child := Element(name.value, map[], []);
      Some((Element(e.value.tag, e.value.attrs, e.value.children + [child]), child))
  }

  /** `addChildElement(doc, name)`: appends to the document's root element. */
  function AddRootChildElement(doc: Option<Document>, name: Option<string>): (r: Option<(Document, Element)>)
    ensures r.Some? <==> doc.Some? && doc.value.root.Some? && name.Some?
    ensures r.Some? ==>
      var root := doc.value.root.value;
      && r.value.0.root.Some?
      && r.value.0.root.value.tag == root.tag
      && r.value.0.root.value.attrs == root.attrs
      && r.value.0.root.value.children == root.children + [r.value.1]
      && r.value.1 == Element(name.value, map[], [])
  {
    match AddChildElement(doc, GetDocumentElement(doc), name)
    case None => None
    case Some((parent, child)) => Some((Document(Some(parent)), child))
  }

  /**
    `setElementText`: `setTextContent` replaces every child with one text
    node holding the text, or with nothing when the text is empty.
  */
  function SetElementText(e: Option<Element>, text: Option<string>): (r: Option<Element>)
    ensures e.None? ==> r.None?
    ensures e.Some? && text.None? ==> r == e
    ensures e.Some? && text.Some? ==>
      && r.Some? && r.value.tag == e.value.tag && r.value.attrs == e.value.attrs
      && TextContent(r.value) == text.value
      && |r.value.children| <= 1
      && (forall c :: c in r.value.children ==> c.Text?)
      && (r.value.children == [] <==> text.value == "")
  {
    if e.None? || text.None? then e
    else if text.value == "" then Some(Element(e.value.tag, e.value.attrs, []))
    else
      assert ForestText([Text(text.value)]) == text.value by {
        ForestTextCons(Text(text.value), []);
        assert [Text(text.value)] + [] == [Text(text.value)];
      }
      Some(Element(e.value.tag, e.value.attrs, [Text(text.value)]))
  }

  /** `setElementAttribute`: sets one attribute, leaving the others and the children alone. */
  function SetElementAttribute(e: Option<Element>, name: Option<string>, value: Option<string>)
    : (r: Option<Element>)
    ensures e.None? ==> r.None?
    ensures e.Some? && (name.None? || value.None?) ==> r == e
    ensures e.Some? && name.Some? && value.Some? ==>
      && r.Some? && r.value.tag == e.value.tag && r.value.children == e.value.children
      && GetElementAttribute(r, name) == value
      && name.value in r.value.attrs && r.value.attrs[name.value] == value.value
      && (forall k :: k != name.value ==> (k in r.value.attrs <==> k in e.value.attrs))
      && (forall k :: k != name.value && k in e.value.attrs ==> r.value.attrs[k] == e.value.attrs[k])
  {
    if e.None? || name.None? || value.None? then e
    else Some(Element(e.value.tag, e.value.attrs[name.value := value.value], e.value.children))
  }

  // ---------------------------------------------------------------------
  // Text and its coercions

  /** `getElementText`: the element's text content. */
  function GetElementText(e: Option<Element>): (r: Option<string>)
    ensures r.None? <==> e.None?
    ensures r.Some? ==> r.value == TextContent(e.value)
  {
    match e
    case None => None
    case Some(x) => Some(TextContent(x))
  }

  /** `getElementText(e, default)`. */
  function GetElementTextOr(e: Option<Element>, default: Option<string>): (r: Option<string>)
    ensures e.None? ==> r == default
    ensures e.Some? ==> r == Some(TextContent(e.value))
  {
    match GetElementText(e)
    case Some(t) => Some(t)
    case None => default
  }

  /** `getElementInteger`: the text as a 32-bit decimal, `None` when missing or unparseable. */
  function GetElementInteger(e: Option<Element>): (r: Option<int>)
    ensures r.None? <==> e.None? || !IsDecimalLiteral(TextContent(e.value))
                         || !InInt32(ParseDecimal(TextContent(e.value)).value)
    ensures r.Some? ==> InInt32(r.value) && ParseDecimal(TextContent(e.value)) == r
  {
    match GetElementText(e)
    case None => None
    case Some(t) => ParseInt32(t)
  }

  /** `getElementInteger(e, default)`: the default exactly where the plain form gives `None`. */
  function GetElementIntegerOr(e: Option<Element>, default: Option<int>): (r: Option<int>)
    ensures e.None? || ParseInt32(TextContent(e.value)).None? ==> r == default
    ensures e.Some? && ParseInt32(TextContent(e.value)).Some? ==>
      r.Some? && InInt32(r.value) && ParseDecimal(TextContent(e.value)) == r
  {
    match GetElementInteger(e)
    case Some(v) => Some(v)
    case None => default
  }

  /** `getElementLong`: the text as a 64-bit decimal, `None` when missing or unparseable. */
  function GetElementLong(e: Option<Element>): (r: Option<int>)
    ensures r.None? <==> e.None? || !IsDecimalLiteral(TextContent(e.value))
                         || !InInt64(ParseDecimal(TextContent(e.value)).value)
    ensures r.Some? ==> InInt64(r.value) && ParseDecimal(TextContent(e.value)) == r
  {
    match GetElementText(e)
    case None => None
    case Some(t) => ParseInt64(t)
  }

  /** `getElementLong(e, default)`. */
  function GetElementLongOr(e: Option<Element>, default: Option<int>): (r: Option<int>)
    ensures e.None? || ParseInt64(TextContent(e.value)).None? ==> r == default
    ensures e.Some? && ParseInt64(TextContent(e.value)).Some? ==>
      r.Some? && InInt64(r.value) && ParseDecimal(TextContent(e.value)) == r
  {
    match GetElementLong(e)
    case Some(v) => Some(v)
    case None => default
  }

  /**
    `getElementBoolean`: `true`, `yes`, `1` in any case read as true;
    everything else, `false`, `no`, `0` included, reads as false, because
    the fallback `Boolean.parseBoolean` on lower-cased text can only match
    `true`, which was already handled. Only a missing element gives `None`.
  */
  function GetElementBoolean(e: Option<Element>): (r: Option<bool>)
    ensures r.None? <==> e.None?
    ensures r == Some(true) <==> e.Some? && ToLower(TextContent(e.value)) in {"true", "yes", "1"}
  {
    match GetElementText(e)
    case None => None
    case Some(t) =>
      var text := ToLower(t);
      if text == "true" || text == "yes" || text == "1" then Some(true)
      else if text == "false" || text == "no" || text == "0" then Some(false)
      else Some(EqualsIgnoreCase(text, "true"))
  }

  /** `getElementBoolean(e, default)`: the default is used only for a missing element. */
  function GetElementBooleanOr(e: Option<Element>, default: Option<bool>): (r: Option<bool>)
    ensures e.None? ==> r == default
    ensures e.Some? ==> r.Some? && (r.value <==> ToLower(TextContent(e.value)) in {"true", "yes", "1"})
  {
    match GetElementBoolean(e)
    case Some(b) => Some(b)
    case None => default
  }

  // ---------------------------------------------------------------------
  // Attributes and their coercions

  /** `getElementAttribute`: `getAttribute` reads an unset attribute as the empty string. */
  function GetElementAttribute(e: Option<Element>, name: Option<string>): (r: Option<string>)
    ensures r.None? <==> e.None? || name.None?
    ensures r.Some? && name.value in e.value.attrs ==> r.value == e.value.attrs[name.value]
    ensures r.Some? && name.value !in e.value.attrs ==> r.value == ""
  {
    if e.None? || name.None? then None
    else if name.value in e.value.attrs then Some(e.value.attrs[name.value])
    else Some("")
  }

  /** `getElementAttribute(e, name, default)`: an unset attribute still reads as `""`. */
  function GetElementAttributeOr(e: Option<Element>, name: Option<string>, default: Option<string>)
    : (r: Option<string>)
    ensures e.None? || name.None? ==> r == default
    ensures e.Some? && name.Some? && name.value !in e.value.attrs ==> r == Some("")
    ensures e.Some? && name.Some? && name.value in e.value.attrs ==> r == Some(e.value.attrs[name.value])
  {
    match GetElementAttribute(e, name)
    case Some(v) => Some(v)
    case None => default
  }

  /** `getElementAttributeInteger`. */
  function GetElementAttributeInteger(e: Option<Element>, name: Option<string>): (r: Option<int>)
    ensures e.None? || name.None? ==> r.None?
    ensures e.Some? && name.Some? && name.value !in e.value.attrs ==> r.None?
    ensures r.Some? ==> InInt32(r.value) && ParseDecimal(e.value.attrs[name.value]) == r
    ensures e.Some? && name.Some? && name.value in e.value.attrs ==> r == ParseInt32(e.value.attrs[name.value])
  {
    match GetElementAttribute(e, name)
    case None => None
    case Some(v) => ParseInt32(v)
  }

  /** `getElementAttributeInteger(e, name, default)`: an unset attribute gives the default. */
  function GetElementAttributeIntegerOr(e: Option<Element>, name: Option<string>, default: Option<int>)
    : (r: Option<int>)
    ensures e.None? || name.None? ==> r == default
    ensures e.Some? && name.Some? && name.value !in e.value.attrs ==> r == default
    ensures e.Some? && name.Some? && name.value in e.value.attrs ==>
      r == (if ParseInt32(e.value.attrs[name.value]).Some? then ParseInt32(e.value.attrs[name.value]) else default)
  {
    match GetElementAttributeInteger(e, name)
    case Some(v) => Some(v)
    case None => default
  }

  /** `getElementAttributeBoolean`: `Boolean.parseBoolean`, true only for "true" in any case. */
  function GetElementAttributeBoolean(e: Option<Element>, name: Option<string>): (r: Option<bool>)
    ensures r.None? <==> e.None? || name.None?
    ensures r == Some(true) <==>
      e.Some? && name.Some? && name.value in e.value.attrs && EqualsIgnoreCase(e.value.attrs[name.value], "true")
  {
    match GetElementAttribute(e, name)
    case None => None
    case Some(v) => Some(EqualsIgnoreCase(v, "true"))
  }

  /** `getElementAttributeBoolean(e, name, default)`. */
  function GetElementAttributeBooleanOr(e: Option<Element>, name: Option<string>, default: Option<bool>)
    : (r: Option<bool>)
    ensures e.None? || name.None? ==> r == default
    ensures e.Some? && name.Some? ==> r.Some? && (r.value <==> GetElementAttributeBoolean(e, name) == Some(true))
  {
    match GetElementAttributeBoolean(e, name)
    case Some(b) => Some(b)
    case None => default
  }

  // ---------------------------------------------------------------------
  // Written values read back

  /** `Boolean.toString`. */
  function BooleanString(b: bool): string {
    if b then "true" else "false"
  }

  /** An `Integer` stored with `setElementText` reads back with `getElementInteger`. */
  lemma IntegerTextRoundTrip(e: Element, n: int)
    requires InInt32(n)
    ensures GetElementInteger(SetElementText(Some(e), Some(DecimalString(n)))) == Some(n)
  {
    ParseInt32String(n);
  }

  /** A `Long` stored with `setElementText` reads back with `getElementLong`. */
  lemma LongTextRoundTrip(e: Element, n: int)
    requires InInt64(n)
    ensures GetElementLong(SetElementText(Some(e), Some(DecimalString(n)))) == Some(n)
  {
    ParseInt64String(n);
  }

  /** A `Boolean` stored with `setElementText` reads back with `getElementBoolean`. */
  lemma BooleanTextRoundTrip(e: Element, b: bool)
    ensures GetElementBoolean(SetElementText(Some(e), Some(BooleanString(b)))) == Some(b)
  {
    if b {
      assert ToLower("true") == "true";
    } else {
      assert ToLower("false") == "false";
    }
  }

  /** An `Integer` stored with `setElementAttribute` reads back with `getElementAttributeInteger`. */
  lemma IntegerAttributeRoundTrip(e: Element, name: string, n: int)
    requires InInt32(n)
    ensures GetElementAttributeInteger(SetElementAttribute(Some(e), Some(name), Some(DecimalString(n))), Some(name))
            == Some(n)
  {
    ParseInt32String(n);
  }

  /** A `Boolean` stored with `setElementAttribute` reads back with `getElementAttributeBoolean`. */
  lemma BooleanAttributeRoundTrip(e: Element, name: string, b: bool)
    ensures GetElementAttributeBoolean(SetElementAttribute(Some(e), Some(name), Some(BooleanString(b))), Some(name))
            == Some(b)
  {
    if b {
      assert ToLower("true") == "true";
    } else {
      assert ToLower("false") == "false";
      assert ToLower("false") != ToLower("true") by {
        assert |"false"| != |"true"|;
      }
    }
  }
}
