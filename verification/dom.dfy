/**
 * The part of PHP's DOM extension that the favicon manager relies on:
 * elements with a tag name and an ordered attribute list, getAttribute,
 * setAttribute and getElementsByTagName. Parsing (loadHTML) and
 * serialisation (saveXML) are not modelled here; they are oracles.
 */
module Dom {

  datatype Attr = Attr(name: string, value: string)

  /** An element of the parsed document; tag names are as the HTML parser normalised them. */
  datatype Element = Element(tagName: string, attrs: seq<Attr>)

  predicate HasAttribute(attrs: seq<Attr>, name: string) {
    attrs != [] && (attrs[0].name == name || HasAttribute(attrs[1..], name))
  }

  /** The value of the first attribute called `name`, or "" when there is none. */
  function Lookup(attrs: seq<Attr>, name: string): (value: string) {
    if attrs == [] then ""
    else if attrs[0].name == name then attrs[0].value
    else Lookup(attrs[1..], name)
  }

  /** DOMElement::getAttribute: a missing attribute reads as the empty string. */
  function GetAttribute(e: Element, name: string): (value: string) {
    Lookup(e.attrs, name)
  }

  /** Gives every attribute called `name` the new value, in place. */
  function Replace(attrs: seq<Attr>, name: string, value: string): (r: seq<Attr>)
    ensures |r| == |attrs|
    ensures forall k :: 0 <= k < |attrs| ==>
      r[k] == if attrs[k].name == name then Attr(name, value) else attrs[k]
  {
    if attrs == [] then []
    else [if attrs[0].name == name then Attr(name, value) else attrs[0]] + Replace(attrs[1..], name, value)
  }

  /** DOMElement::setAttribute: overwrite the attribute where it is, or append it. */
  function SetAttribute(e: Element, name: string, value: string): (updated: Element) {
    Element(e.tagName,
            if HasAttribute(e.attrs, name) then Replace(e.attrs, name, value)
            else e.attrs + [Attr(name, value)])
  }

  /** DOMDocument::getElementsByTagName: the elements with that tag, in document order. */
  function ElementsByTagName(doc: seq<Element>, name: string): (selected: seq<Element>) {
    if doc == [] then []
    else (if doc[0].tagName == name then [doc[0]] else []) + ElementsByTagName(doc[1..], name)
  }

  /** The selection holds exactly the document's elements with that tag. */
  lemma {:induction false} ElementsByTagNameExact(doc: seq<Element>, name: string, e: Element)
    ensures |ElementsByTagName(doc, name)| <= |doc|
    ensures e in ElementsByTagName(doc, name) <==> e in doc && e.tagName == name
  {
    if doc != [] {
      ElementsByTagNameExact(doc[1..], name, e);
      assert doc == [doc[0]] + doc[1..];
    }
  }

  /** Selecting by tag distributes over concatenation, so document order is kept. */
  lemma {:induction false} ElementsByTagNameAppend(a: seq<Element>, b: seq<Element>, name: string)
    ensures ElementsByTagName(a + b, name) == ElementsByTagName(a, name) + ElementsByTagName(b, name)
  {
    if a != [] {
      assert (a + b)[0] == a[0];
      assert (a + b)[1..] == a[1..] + b;
      ElementsByTagNameAppend(a[1..], b, name);
    } else {
      assert a + b == b;
    }
  }

  /** A missing attribute reads as "". */
  lemma {:induction false} LookupMissing(attrs: seq<Attr>, name: string)
    requires !HasAttribute(attrs, name)
    ensures Lookup(attrs, name) == ""
  {
    if attrs != [] {
      LookupMissing(attrs[1..], name);
    }
  }

  lemma {:induction false} LookupReplace(attrs: seq<Attr>, name: string, value: string, other: string)
    ensures Lookup(Replace(attrs, name, value), other)
            == if other == name && HasAttribute(attrs, name) then value else Lookup(attrs, other)
  {
    if attrs != [] {
      var r := Replace(attrs, name, value);
      assert r[0] == if attrs[0].name == name then Attr(name, value) else attrs[0];
      assert r[1..] == Replace(attrs[1..], name, value);
      LookupReplace(attrs[1..], name, value, other);
    }
  }

  lemma {:induction false} LookupAppend(attrs: seq<Attr>, name: string, value: string, other: string)
    requires !HasAttribute(attrs, name)
    ensures Lookup(attrs + [Attr(name, value)], other) == if other == name then value else Lookup(attrs, other)
  {
    if attrs == [] {
      assert attrs + [Attr(name, value)] == [Attr(name, value)];
    } else {
      assert (attrs + [Attr(name, value)])[1..] == attrs[1..] + [Attr(name, value)];
      LookupAppend(attrs[1..], name, value, other);
    }
  }

  /** After setAttribute, the attribute reads back as the new value and every other attribute as before. */
  lemma SetThenGet(e: Element, name: string, value: string, other: string)
    ensures GetAttribute(SetAttribute(e, name, value), other)
            == if other == name then value else GetAttribute(e, other)
  {
    if HasAttribute(e.attrs, name) {
      LookupReplace(e.attrs, name, value, other);
    } else {
      LookupAppend(e.attrs, name, value, other);
    }
  }

  /** setAttribute keeps the tag name and every other attribute in its position. */
  lemma SetAttributeKeepsRest(e: Element, name: string, value: string)
    ensures SetAttribute(e, name, value).tagName == e.tagName
    ensures |SetAttribute(e, name, value).attrs|
            == if HasAttribute(e.attrs, name) then |e.attrs| else |e.attrs| + 1
    ensures forall k :: 0 <= k < |e.attrs| && e.attrs[k].name != name ==>
      SetAttribute(e, name, value).attrs[k] == e.attrs[k]
  {
  }
}
