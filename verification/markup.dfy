/**
 * What getHtml() computes on a cache miss when both `file` and `tags` are
 * set: every `<link>` whose file exists under the extraction directory,
 * with its href rewritten to a public URL, then every `<meta>` unchanged,
 * each serialised, joined by PHP_EOL and followed by one more PHP_EOL.
 */
module Markup {
  import opened Php
  import opened Dom
  import opened Services

  /** The cache ID of the rendered markup. */
  const HTML_CID := "neo_favicon"

  /** The directory the archive is extracted into. */
  const FAVICON_DIR := "public://neo-favicon"

  /** PHP_EOL on the Unix hosts the module runs on. */
  const EOL := "\n"

  /** The path probed for a link: the directory and the href, with no separator added. */
  function LinkPath(link: Element): (path: string) {
    FAVICON_DIR + GetAttribute(link, "href")
  }

  /** The link after its href is replaced by the public URL of its path. */
  function Rewritten(link: Element, env: Env): (rewritten: Element) {
    SetAttribute(link, "href", env.urlOf(LinkPath(link)))
  }

  /** What one link contributes: its rewritten serialisation when its file exists, else nothing. */
  function LinkFragment(link: Element, env: Env): (fragment: seq<string>) {
    if env.fileExists(LinkPath(link)) then [env.saveXml(Rewritten(link, env))] else []
  }

  /** The fragments of the link loop after it has visited `links`. */
  function LinkFragments(links: seq<Element>, env: Env): (fragments: seq<string>)
    decreases |links|
  {
    if links == [] then []
    else LinkFragments(links[..|links| - 1], env) + LinkFragment(links[|links| - 1], env)
  }

  /** The fragments of the meta loop after it has visited `metas`: each one serialised unchanged. */
  function MetaFragments(metas: seq<Element>, env: Env): (r: seq<string>)
    ensures |r| == |metas|
    ensures forall k :: 0 <= k < |metas| ==> r[k] == env.saveXml(metas[k])
  {
    if metas == [] then []
    else MetaFragments(metas[..|metas| - 1], env) + [env.saveXml(metas[|metas| - 1])]
  }

  /** All fragments of a parsed document: kept links first, then metas. */
  function Fragments(doc: seq<Element>, env: Env): (fragments: seq<string>) {
    LinkFragments(ElementsByTagName(doc, "link"), env) + MetaFragments(ElementsByTagName(doc, "meta"), env)
  }

  /** PHP's implode(): the parts with `sep` between neighbours. */
  function Implode(sep: string, parts: seq<string>): (joined: string) {
    if parts == [] then ""
    else if |parts| == 1 then parts[0]
    else parts[0] + sep + Implode(sep, parts[1..])
  }

  /** `implode(PHP_EOL, $data) . PHP_EOL`. */
  function Joined(parts: seq<string>): (markup: string) {
    Implode(EOL, parts) + EOL
  }

  /** `$file && $tags` with PHP truthiness. */
  predicate ShouldBuild(settings: Settings) {
    Truthy(settings.file) && settings.tags.Some? && StringTruthy(settings.tags.value)
  }

  /** The string getHtml() builds and stores from the tag markup. */
  function BuiltMarkup(tags: string, env: Env): (markup: string) {
    Joined(Fragments(env.parse(tags), env))
  }

  // ---------------------------------------------------------------------------
  // The link filter

  /** The link loop's output is a homomorphism: document order of kept links is kept. */
  lemma {:induction false} LinkFragmentsAppend(a: seq<Element>, b: seq<Element>, env: Env)
    ensures LinkFragments(a + b, env) == LinkFragments(a, env) + LinkFragments(b, env)
    decreases |b|
  {
    if b == [] {
      assert a + b == a;
    } else {
      var b' := b[..|b| - 1];
      assert (a + b)[..|a + b| - 1] == a + b';
      assert (a + b)[|a + b| - 1] == b[|b| - 1];
      LinkFragmentsAppend(a, b', env);
    }
  }

  /**
   * A link contributes exactly one fragment, at its own position among the
   * links, if and only if its file exists; otherwise it contributes nothing.
   */
  lemma LinkKeptIff(before: seq<Element>, link: Element, after: seq<Element>, env: Env)
    ensures LinkFragments(before + [link] + after, env)
            == LinkFragments(before, env)
               + (if env.fileExists(LinkPath(link))
                  then [env.saveXml(Rewritten(link, env))] else [])
               + LinkFragments(after, env)
  {
    LinkFragmentsAppend(before + [link], after, env);
    LinkFragmentsAppend(before, [link], env);
    assert [link][..0] == [];
  }

  /** A kept link differs from the parsed one only in its href, which becomes the URL of its path. */
  lemma RewrittenChangesOnlyHref(link: Element, env: Env, other: string)
    ensures Rewritten(link, env).tagName == link.tagName
    ensures GetAttribute(Rewritten(link, env), other)
            == if other == "href" then env.urlOf(LinkPath(link))
               else GetAttribute(link, other)
    ensures forall k :: 0 <= k < |link.attrs| && link.attrs[k].name != "href" ==>
      Rewritten(link, env).attrs[k] == link.attrs[k]
  {
    SetThenGet(link, "href", env.urlOf(LinkPath(link)), other);
    SetAttributeKeepsRest(link, "href", env.urlOf(LinkPath(link)));
  }

  /**
   * A link without an href probes the bare extraction directory, so it is
   * kept, rewritten to the directory's URL, whenever that directory exists
   * (file_exists() is true for directories too).
   */
  lemma MissingHrefProbesDirectory(link: Element, env: Env)
    requires !HasAttribute(link.attrs, "href")
    ensures LinkPath(link) == FAVICON_DIR
    ensures LinkFragment(link, env)
            == if env.fileExists(FAVICON_DIR)
               then [env.saveXml(SetAttribute(link, "href", env.urlOf(FAVICON_DIR)))] else []
  {
    LookupMissing(link.attrs, "href");
  }

  /**
   * Links come before metas whatever the document order: the fragments of
   * `a + b` are the kept links of `a`, the kept links of `b`, the metas of
   * `a`, the metas of `b`.
   */
  lemma FragmentsOrder(a: seq<Element>, b: seq<Element>, env: Env)
    ensures Fragments(a + b, env)
            == LinkFragments(ElementsByTagName(a, "link"), env) + LinkFragments(ElementsByTagName(b, "link"), env)
               + MetaFragments(ElementsByTagName(a, "meta"), env) + MetaFragments(ElementsByTagName(b, "meta"), env)
  {
    ElementsByTagNameAppend(a, b, "link");
    ElementsByTagNameAppend(a, b, "meta");
    LinkFragmentsAppend(ElementsByTagName(a, "link"), ElementsByTagName(b, "link"), env);
    MetaFragmentsAppend(ElementsByTagName(a, "meta"), ElementsByTagName(b, "meta"), env);
  }

  /** The meta loop distributes over concatenation, so metas keep document order. */
  lemma MetaFragmentsAppend(a: seq<Element>, b: seq<Element>, env: Env)
    ensures MetaFragments(a + b, env) == MetaFragments(a, env) + MetaFragments(b, env)
  {
  }

  // ---------------------------------------------------------------------------
  // The join

  /** Occurrences of `c` in `s`. */
  function CountChar(c: char, s: string): (count: nat) {
    if s == [] then 0 else (if s[0] == c then 1 else 0) + CountChar(c, s[1..])
  }

  lemma {:induction false} CountCharAppend(c: char, a: string, b: string)
    ensures CountChar(c, a + b) == CountChar(c, a) + CountChar(c, b)
  {
    if a == [] {
      assert a + b == b;
    } else {
      assert (a + b)[0] == a[0];
      assert (a + b)[1..] == a[1..] + b;
      CountCharAppend(c, a[1..], b);
    }
  }

  lemma {:induction false} CountCharAbsent(c: char, s: string)
    requires c !in s
    ensures CountChar(c, s) == 0
  {
    if s != [] {
      assert forall x :: x in s[1..] ==> x in s;
      CountCharAbsent(c, s[1..]);
    }
  }

  lemma {:induction false} ImplodeEolCount(parts: seq<string>)
    requires forall p :: p in parts ==> '\n' !in p
    ensures CountChar('\n', Implode(EOL, parts)) == if parts == [] then 0 else |parts| - 1
  {
    if |parts| == 1 {
      CountCharAbsent('\n', parts[0]);
    } else if |parts| > 1 {
      assert parts[0] in parts;
      CountCharAbsent('\n', parts[0]);
      CountCharAppend('\n', parts[0], EOL);
      CountCharAppend('\n', parts[0] + EOL, Implode(EOL, parts[1..]));
      assert forall p :: p in parts[1..] ==> p in parts;
      ImplodeEolCount(parts[1..]);
    }
  }

  /**
   * When no fragment contains a newline, the markup has exactly as many
   * newlines as fragments, and a single one when there are none.
   */
  lemma JoinedEolCount(parts: seq<string>)
    requires forall p :: p in parts ==> '\n' !in p
    ensures CountChar('\n', Joined(parts)) == if parts == [] then 1 else |parts|
  {
    ImplodeEolCount(parts);
    CountCharAppend('\n', Implode(EOL, parts), EOL);
  }

  /** Splits text into lines, each ended by a newline; a final unterminated line is kept. */
  function LinesFrom(s: string, current: string): (lines: seq<string>)
    decreases |s|
  {
    if s == [] then (if current == [] then [] else [current])
    else if s[0] == '\n' then [current] + LinesFrom(s[1..], [])
    else LinesFrom(s[1..], current + [s[0]])
  }

  function Lines(s: string): (lines: seq<string>) {
    LinesFrom(s, [])
  }

  lemma {:induction false} LinesFromLine(p: string, rest: string, current: string)
    requires '\n' !in p
    ensures LinesFrom(p + EOL + rest, current) == [current + p] + LinesFrom(rest, [])
    decreases |p|
  {
    if p == [] {
      assert p + EOL + rest == EOL + rest;
      assert (EOL + rest)[1..] == rest;
      assert current + p == current;
    } else {
      var s := p + EOL + rest;
      assert s[0] == p[0];
      assert s[1..] == p[1..] + EOL + rest;
      assert forall x :: x in p[1..] ==> x in p;
      LinesFromLine(p[1..], rest, current + [p[0]]);
      assert current + [p[0]] + p[1..] == current + p;
    }
  }

  /**
   * Reading the markup back line by line gives the fragments again, provided
   * there is at least one and none contains a newline. With no fragments the
   * markup is a lone newline, the same as for one empty fragment.
   */
  lemma {:induction false} JoinedLinesRoundTrip(parts: seq<string>)
    requires parts != []
    requires forall p :: p in parts ==> '\n' !in p
    ensures Lines(Joined(parts)) == parts
    ensures Joined([]) == Joined([""]) == "\n"
  {
    assert parts[0] in parts;
    if |parts| == 1 {
      LinesFromLine(parts[0], "", []);
      assert Joined(parts) == parts[0] + EOL + "";
      assert [] + parts[0] == parts[0];
    } else {
      assert Joined(parts) == parts[0] + EOL + Joined(parts[1..]);
      LinesFromLine(parts[0], Joined(parts[1..]), []);
      assert [] + parts[0] == parts[0];
      assert forall p :: p in parts[1..] ==> p in parts;
      JoinedLinesRoundTrip(parts[1..]);
    }
  }

  // ---------------------------------------------------------------------------
  // A worked case

  const EXAMPLE_FAVICON := Element("link", [Attr("rel", "icon"), Attr("href", "/favicon.png")])
  const EXAMPLE_MISSING := Element("link", [Attr("rel", "icon"), Attr("href", "/missing.png")])
  const EXAMPLE_META := Element("meta", [Attr("name", "theme-color"), Attr("content", "#fff")])
  const EXAMPLE_DOC := [EXAMPLE_FAVICON, EXAMPLE_MISSING, EXAMPLE_META]

  lemma ExampleLinkSelection()
    ensures ElementsByTagName(EXAMPLE_DOC, "link") == [EXAMPLE_FAVICON, EXAMPLE_MISSING]
  {
    var d4 := [EXAMPLE_META];
    var d3 := [EXAMPLE_MISSING] + d4;
    var d2 := [EXAMPLE_FAVICON] + d3;
    assert d2 == EXAMPLE_DOC;
    assert d2[1..] == d3 && d3[1..] == d4 && d4[1..] == [];
    assert "meta"[0] != "link"[0];
    assert ElementsByTagName(d4, "link") == [];
    assert ElementsByTagName(d3, "link") == [EXAMPLE_MISSING];
    assert ElementsByTagName(d2, "link") == [EXAMPLE_FAVICON, EXAMPLE_MISSING];
  }

  lemma ExampleMetaSelection()
    ensures ElementsByTagName(EXAMPLE_DOC, "meta") == [EXAMPLE_META]
  {
    var d4 := [EXAMPLE_META];
    var d3 := [EXAMPLE_MISSING] + d4;
    var d2 := [EXAMPLE_FAVICON] + d3;
    assert d2 == EXAMPLE_DOC;
    assert d2[1..] == d3 && d3[1..] == d4 && d4[1..] == [];
    assert "link"[0] != "meta"[0];
    assert ElementsByTagName(d4, "meta") == [EXAMPLE_META];
    assert ElementsByTagName(d3, "meta") == [EXAMPLE_META];
    assert ElementsByTagName(d2, "meta") == [EXAMPLE_META];
  }

  lemma ExampleMissingDropped(env: Env)
    requires !env.fileExists("public://neo-favicon/missing.png")
    ensures LinkFragment(EXAMPLE_MISSING, env) == []
  {
    assert GetAttribute(EXAMPLE_MISSING, "href") == "/missing.png";
    assert LinkPath(EXAMPLE_MISSING) == "public://neo-favicon/missing.png";
  }

  lemma ExampleFaviconKept(env: Env)
    requires env.fileExists("public://neo-favicon/favicon.png")
    ensures LinkFragment(EXAMPLE_FAVICON, env)
            == [env.saveXml(Element("link", [Attr("rel", "icon"),
                                             Attr("href", env.urlOf("public://neo-favicon/favicon.png"))]))]
  {
    var url := env.urlOf("public://neo-favicon/favicon.png");
    assert GetAttribute(EXAMPLE_FAVICON, "href") == "/favicon.png";
    assert LinkPath(EXAMPLE_FAVICON) == "public://neo-favicon/favicon.png";
    assert HasAttribute(EXAMPLE_FAVICON.attrs, "href");
    var r := Replace(EXAMPLE_FAVICON.attrs, "href", url);
    assert r == [Attr("rel", "icon"), Attr("href", url)];
  }

  lemma ExampleLinks(env: Env)
    requires env.fileExists("public://neo-favicon/favicon.png")
    requires !env.fileExists("public://neo-favicon/missing.png")
    ensures LinkFragments([EXAMPLE_FAVICON, EXAMPLE_MISSING], env)
            == [env.saveXml(Element("link", [Attr("rel", "icon"),
                                             Attr("href", env.urlOf("public://neo-favicon/favicon.png"))]))]
  {
    ExampleMissingDropped(env);
    ExampleFaviconKept(env);
    assert LinkFragments([EXAMPLE_FAVICON], env) == LinkFragment(EXAMPLE_FAVICON, env) by {
      assert [EXAMPLE_FAVICON][..0] == [];
    }
    assert [EXAMPLE_FAVICON, EXAMPLE_MISSING][..1] == [EXAMPLE_FAVICON];
  }

  /**
   * Two icon links and a theme-color meta, with only favicon.png extracted:
   * the markup is the rewritten favicon link and the meta, one per line.
   */
  lemma ExampleMarkup(env: Env)
    requires env.fileExists("public://neo-favicon/favicon.png")
    requires !env.fileExists("public://neo-favicon/missing.png")
    ensures Joined(Fragments(EXAMPLE_DOC, env))
            == env.saveXml(Element("link", [Attr("rel", "icon"),
                                            Attr("href", env.urlOf("public://neo-favicon/favicon.png"))]))
               + "\n" + env.saveXml(EXAMPLE_META) + "\n"
  {
    ExampleLinkSelection();
    ExampleMetaSelection();
    ExampleLinks(env);
    var parts := Fragments(EXAMPLE_DOC, env);
    assert |parts| == 2;
    assert Implode(EOL, parts) == parts[0] + EOL + parts[1] by {
      assert parts[1..] == [parts[1]];
    }
  }
}
