/**
 * The favicon manager: two memoising builders, getHtml() and getImages(),
 * each first consulting an instance field, then the cache backend, and only
 * then computing the value and storing it in the cache.
 */
module Manager {
  import opened Php
  import opened Dom
  import opened Services
  import opened Markup
  import opened Images

  /** One builder's state: its memo field and the cache backend's entries. */
  datatype Memo = Memo(memo: Value, cache: map<string, Value>)

  /** getHtml() as a state transition. */
  function HtmlStep(s: Memo, env: Env): (t: Memo) {
    if IsSet(s.memo) then s
    else if HTML_CID in s.cache then Memo(s.cache[HTML_CID], s.cache)
    else if ShouldBuild(env.settings) then
      var markup := Text(BuiltMarkup(env.settings.tags.value, env));
      Memo(markup, s.cache[HTML_CID := markup])
    else Memo(EMPTY_ARRAY, s.cache)
  }

  /**
   * getImages() reaches scanDirectory() and the extraction directory is
   * missing: the scan throws before anything is assigned or cached.
   */
  predicate ScanThrows(s: Memo, env: Env) {
    !IsSet(s.memo) && IMAGES_CID !in s.cache && env.listing.None?
  }

  /** getImages() as a state transition. */
  function ImagesStep(s: Memo, env: Env): (t: Memo) {
    if IsSet(s.memo) then s
    else if IMAGES_CID in s.cache then Memo(s.cache[IMAGES_CID], s.cache)
    else match env.listing
      case None => s
      case Some(listing) =>
        var inventory := Inventory(Scan(listing), env);
        Memo(inventory, s.cache[IMAGES_CID := inventory])
  }

  /** What getImages() hands its caller: the exception, or the memo as returned from `: array`. */
  function ImagesResult(s: Memo, env: Env): (r: Returned<map<string, ImageEntry>>) {
    if ScanThrows(s, env) then Thrown(NOT_REGULAR_DIRECTORY) else ReturnArray(ImagesStep(s, env).memo)
  }

  // ---------------------------------------------------------------------------
  // getHtml()

  /** Once the memo is set, even to `[]`, the call touches neither cache nor settings. */
  lemma HtmlMemoHit(s: Memo, env: Env)
    requires IsSet(s.memo)
    ensures HtmlStep(s, env) == s
  {
  }

  /** On a cache hit the memo takes the cached data and nothing is recomputed or written. */
  lemma HtmlCacheHit(s: Memo, env: Env)
    requires !IsSet(s.memo) && HTML_CID in s.cache
    ensures HtmlStep(s, env) == Memo(s.cache[HTML_CID], s.cache)
  {
  }

  /**
   * On a miss with an empty `file` or `tags` nothing is cached, the memo
   * becomes the empty array, and returning it from a method declared to
   * return a string raises a TypeError.
   */
  lemma HtmlEmptySettings(s: Memo, env: Env)
    requires !IsSet(s.memo) && HTML_CID !in s.cache && !ShouldBuild(env.settings)
    ensures HtmlStep(s, env) == Memo(Array(map[]), s.cache)
    ensures ReturnString(HtmlStep(s, env).memo) == TypeError(Array(map[]))
  {
  }

  /** A tag markup of "0" is as empty as no markup at all. */
  lemma HtmlZeroTagsAreEmpty(s: Memo, env: Env)
    requires !IsSet(s.memo) && HTML_CID !in s.cache && env.settings.tags == Some("0")
    ensures HtmlStep(s, env) == Memo(Array(map[]), s.cache)
  {
  }

  /** On a miss with both set, the joined markup is the memo and is stored under 'neo_favicon'. */
  lemma HtmlBuilds(s: Memo, env: Env)
    requires !IsSet(s.memo) && HTML_CID !in s.cache && ShouldBuild(env.settings)
    ensures var markup := BuiltMarkup(env.settings.tags.value, env);
            HtmlStep(s, env) == Memo(Text(markup), s.cache[HTML_CID := Text(markup)])
  {
  }

  /**
   * A second call changes nothing and returns what the first returned, even
   * when the settings or the files changed in between: only a new manager
   * with an invalidated cache sees them.
   */
  lemma HtmlStepIdempotent(s: Memo, first: Env, second: Env)
    ensures HtmlStep(HtmlStep(s, first), second) == HtmlStep(s, first)
  {
  }

  /** With a fresh manager and the entry invalidated, the markup is rebuilt from the current settings. */
  lemma HtmlAfterInvalidation(cache: map<string, Value>, env: Env)
    requires ShouldBuild(env.settings)
    ensures HtmlStep(Memo(Null, cache - {HTML_CID}), env).memo
            == Text(BuiltMarkup(env.settings.tags.value, env))
  {
  }

  // ---------------------------------------------------------------------------
  // getImages()

  /** On a cache hit the memo takes the cached data, whatever it is, and nothing is scanned. */
  lemma ImagesCacheHit(s: Memo, env: Env)
    requires !IsSet(s.memo) && IMAGES_CID in s.cache
    ensures ImagesStep(s, env) == Memo(s.cache[IMAGES_CID], s.cache)
  {
  }

  /**
   * On a miss the inventory is written under 'neo_favicon:images'; it has
   * one entry per existing scanned URI, decodable or not.
   */
  lemma ImagesMiss(s: Memo, env: Env)
    requires !IsSet(s.memo) && IMAGES_CID !in s.cache && env.listing.Some?
    requires Existing(Scan(env.listing.value), env) != {}
    ensures var entries := map u | u in Existing(Scan(env.listing.value), env) :: EntryFor(env.imageSize(u));
            ImagesStep(s, env) == Memo(Array(entries), s.cache[IMAGES_CID := Array(entries)])
            && ImagesResult(s, env) == Ok(entries)
  {
    InventoryExact(Scan(env.listing.value), env);
  }

  /**
   * When no scanned file exists, null is cached and the memo stays unset:
   * the call raises a TypeError (null is not an array), and so does the
   * next one, which goes back to the cache.
   */
  lemma ImagesEmptyScan(s: Memo, env: Env, next: Env)
    requires !IsSet(s.memo) && IMAGES_CID !in s.cache && env.listing.Some?
    requires Existing(Scan(env.listing.value), env) == {}
    ensures ImagesStep(s, env) == Memo(Null, s.cache[IMAGES_CID := Null])
    ensures ImagesResult(s, env) == TypeError(Null)
    ensures var t := ImagesStep(s, env);
            !IsSet(t.memo) && IMAGES_CID in t.cache && ImagesStep(t, next) == t
            && ImagesResult(t, next) == TypeError(Null)
  {
    InventoryExact(Scan(env.listing.value), env);
  }

  /**
   * When the extraction directory is missing, the scan throws: nothing is
   * assigned or cached, so the next call scans again with whatever it finds.
   */
  lemma ImagesMissingDirectory(s: Memo, env: Env, next: Env)
    requires ScanThrows(s, env)
    ensures ImagesStep(s, env) == s
    ensures ImagesResult(s, env) == Thrown(NOT_REGULAR_DIRECTORY)
    ensures ImagesStep(ImagesStep(s, env), next) == ImagesStep(s, next)
  {
  }

  /** Once the memo is set, the call touches neither cache nor directory and returns the memo. */
  lemma ImagesMemoHit(s: Memo, env: Env)
    requires IsSet(s.memo)
    ensures ImagesStep(s, env) == s
    ensures ImagesResult(s, env) == ReturnArray(s.memo)
  {
  }

  /**
   * Unless the first call threw, a second call changes nothing and returns
   * what the first returned.
   */
  lemma ImagesStepIdempotent(s: Memo, first: Env, second: Env)
    ensures !ScanThrows(s, first) ==>
      ImagesStep(ImagesStep(s, first), second) == ImagesStep(s, first)
      && ImagesResult(ImagesStep(s, first), second) == ImagesResult(s, first)
  {
  }

  /** The link loop: each link whose file exists, with its href rewritten, serialised in order. */
  method SerializeLinks(links: seq<Element>, env: Env) returns (fragments: seq<string>)
    ensures fragments == LinkFragments(links, env)
  {
    fragments := [];
    var i := 0;
    while i < |links|
      invariant 0 <= i <= |links|
      invariant fragments == LinkFragments(links[..i], env)
    {
      var tag := links[i];
      var path := FAVICON_DIR + GetAttribute(tag, "href");
      if env.fileExists(path) {
        tag := SetAttribute(tag, "href", env.urlOf(path));
        fragments := fragments + [env.saveXml(tag)];
      }
      assert links[..i + 1][..i] == links[..i];
      i := i + 1;
    }
    assert links[..|links|] == links;
  }

  /** The meta loop: every meta serialised unchanged, appended in order. */
  method SerializeMetas(fragments: seq<string>, metas: seq<Element>, env: Env) returns (all: seq<string>)
    ensures all == fragments + MetaFragments(metas, env)
  {
    all := fragments;
    var j := 0;
    while j < |metas|
      invariant 0 <= j <= |metas|
      invariant all == fragments + MetaFragments(metas[..j], env)
    {
      all := all + [env.saveXml(metas[j])];
      assert metas[..j + 1][..j] == metas[..j];
      j := j + 1;
    }
    assert metas[..|metas|] == metas;
  }

  /**
   * The body of getHtml() on a miss with `file` and `tags` set: the link
   * loop, the meta loop and the join.
   */
  method BuildMarkup(tags: string, env: Env) returns (markup: string)
    ensures markup == BuiltMarkup(tags, env)
  {
    var doc := env.parse(tags);
    var fragments := SerializeLinks(ElementsByTagName(doc, "link"), env);
    fragments := SerializeMetas(fragments, ElementsByTagName(doc, "meta"), env);
    markup := Implode(EOL, fragments) + EOL;
  }

  // ---------------------------------------------------------------------------
  // The class

  class FaviconManager {
    /** `$this->data`: null until getHtml() has run; then the markup, or `[]`. */
    var data: Value
    /** `$this->images`: null until getImages() has found a file or read a non-null cache entry. */
    var images: Value
    /** The entries of the cache backend. */
    var cache: map<string, Value>

    constructor (cache: map<string, Value>)
      ensures data == Null && images == Null && this.cache == cache
    {
      data := Null;
      images := Null;
      this.cache := cache;
    }

    method GetHtml(env: Env) returns (r: Returned<string>)
      modifies this`data, this`cache
      ensures Memo(data, cache) == HtmlStep(Memo(old(data), old(cache)), env)
      ensures r == ReturnString(data)
    {
      if !IsSet(data) {
        if HTML_CID in cache {
          data := cache[HTML_CID];
        } else {
          var result := EMPTY_ARRAY;
          var settings := env.settings;
          if ShouldBuild(settings) {
            var markup := BuildMarkup(settings.tags.value, env);
            result := Text(markup);
            cache := cache[HTML_CID := result];
          }
          data := result;
        }
      }
      r := ReturnString(data);
    }

    method GetImages(env: Env) returns (r: Returned<map<string, ImageEntry>>)
      modifies this`images, this`cache
      ensures Memo(images, cache) == ImagesStep(Memo(old(images), old(cache)), env)
      ensures r == ImagesResult(Memo(old(images), old(cache)), env)
    {
      if !IsSet(images) {
        if IMAGES_CID in cache {
          images := cache[IMAGES_CID];
        } else {
          if env.listing.None? {
            return Thrown(NOT_REGULAR_DIRECTORY);
          }
          var files := Scan(env.listing.value);
          for i := 0 to |files|
            invariant images == Inventory(files[..i], env)
            invariant cache == old(cache)
          {
            var file := files[i];
            if env.fileExists(file.uri) {
              var size := env.imageSize(file.uri);
              images := Put(images, file.uri, EntryFor(size));
            }
            assert files[..i + 1][..i] == files[..i];
          }
          assert files[..|files|] == files;
          cache := cache[IMAGES_CID := images];
        }
      }
      r := ReturnArray(images);
    }
  }

  /** Two calls in one request return the same markup, as a caller of the class sees it. */
  method TwoHtmlCalls(manager: FaviconManager, env: Env) returns (first: Returned<string>, second: Returned<string>)
    modifies manager
    ensures first == second
  {
    first := manager.GetHtml(env);
    HtmlStepIdempotent(Memo(old(manager.data), old(manager.cache)), env, env);
    second := manager.GetHtml(env);
  }
}
