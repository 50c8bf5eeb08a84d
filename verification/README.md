# neo_favicon favicon manager, modelled in Dafny

The Drupal module neo_favicon lets an administrator upload a zip of favicon
files and paste the `<link>`/`<meta>` markup a favicon generator produced.
Its `FaviconManager` service has two memoising builders:

- `getHtml()` turns the stored markup into the tags the site prints. A
  `<link>` is kept only when `file_exists` holds for `public://neo-favicon`
  followed by its `href` (a directory counts, see below), and its `href` is
  then rewritten to a public URL.
  Every `<meta>` is kept. Kept links come first, then metas. Each is
  serialised, and the pieces are joined with `PHP_EOL` plus one final
  `PHP_EOL`.
- `getImages()` lists the PNG files under that directory with their width
  and height.

Each builder looks first at an instance field, then at the cache backend.
Only when both miss does it compute a value, and only then can it write the
cache. It does not write it when `file` or `tags` is empty
(`HtmlEmptySettings`) or when the extraction directory is missing
(`ImagesMissingDirectory`).

The model has these modules:

- `Php`: the PHP values the builders store, PHP truthiness of configuration
  values, and the TypeError a method raises when it returns a value that is
  not of its declared type.
- `Dom`: elements, `getAttribute`, `setAttribute` and `getElementsByTagName`.
- `Services`: the collaborators, as oracles. These are the settings record,
  `file_exists`, the URL generator, the HTML parser and serialiser,
  `getimagesize` and the directory listing.
- `Markup`: the link filter and rewrite, the meta pass, and the join, as
  specification functions with lemmas.
- `Images`: the scan mask, the inventory, and its closed form.
- `Manager`: both builders as pure state transitions (`HtmlStep`,
  `ImagesStep`) with lemmas about them. It also holds the class
  `FaviconManager`, whose fields are `data`, `images` and `cache`. Its
  methods `GetHtml` and `GetImages` run the source's loops and are proved
  equal to those transitions.

## Behaviour a reader might not expect

The model follows what the code does, including where it departs from its
own doc comments.

- `getHtml()` is documented `@return string` (src/FaviconManager.php:45-46).
  With an empty `file` or `tags`, though, it caches nothing and sets
  `$this->data` to `[]` (src/FaviconManager.php:56, 87). Returning `[]` from
  a method declared `: string` raises a TypeError. Because `[]` counts as
  set, every later call on the same manager raises it again
  (`HtmlEmptySettings`, `HtmlMemoHit`).
- Truthiness is PHP's, so a tag markup of `"0"` counts as empty
  (`HtmlZeroTagsAreEmpty`).
- A `<link>` with no `href` (or `href="/"`) probes the directory
  `public://neo-favicon` itself. `file_exists` is true for directories, so
  that link is kept, with its `href` rewritten to the directory's URL,
  whenever the directory exists (`MissingHrefProbesDirectory`).
- `getImages()` is documented to return objects with `uri`, `filename` and
  `name` properties (src/FaviconManager.php:96-98). The entries it stores
  are `['width' => …, 'height' => …]` arrays keyed by URI
  (src/FaviconManager.php:111-114). An image that fails to decode is kept,
  with null width and height (`InventoryExact`, `EntryFor`).
- When no scanned file exists, `$this->images` stays null and null is cached.
  Returning null from `: array` raises a TypeError. Since null is "not set",
  the next call reads the cache again (`ImagesEmptyScan`).
- When `public://neo-favicon` is not a directory (before the first archive
  is saved, or after the settings are deleted), `scanDirectory` throws
  `NotRegularDirectoryException`. Nothing is assigned or cached, so the next
  call scans again (`ImagesMissingDirectory`).
- The scan mask `/.*.png$/i` has an unescaped dot. It therefore accepts
  `apng` as well as `a.png`, and it rejects a bare `png` (`PngMaskExamples`).

## Model

| member | source | states |
|---|---|---|
| `Manager.FaviconManager.constructor` | src/FaviconManager.php:35-40 | A new manager has both memo fields unset and sees the given cache entries. |
| `Manager.FaviconManager.GetHtml` | src/FaviconManager.php:48-91 | The new memo field and cache equal `HtmlStep` of the old ones. The result is the memo if it is a string, otherwise a TypeError. |
| `Manager.FaviconManager.GetImages` | src/FaviconManager.php:100-122 | The new memo field and cache equal `ImagesStep` of the old ones. The result is `NotRegularDirectoryException` when the scan finds no directory, otherwise the memo if it is an array, otherwise a TypeError. |
| `Manager.BuildMarkup` | src/FaviconManager.php:61-84 | The link loop, meta loop and implode produce exactly `BuiltMarkup(tags)`, the kept links then the metas, joined by `PHP_EOL` with a final one. |
| `Manager.SerializeLinks` | src/FaviconManager.php:66-75 | The link loop's list equals `LinkFragments`. Each existing link is rewritten and serialised in order; see `LinkKeptIff`. |
| `Manager.SerializeMetas` | src/FaviconManager.php:78-83 | The meta loop appends exactly `MetaFragments(metas)` to the links' list. |
| `Manager.HtmlStep` | src/FaviconManager.php:48-91 | One `getHtml()` call as a transition of memo and cache: a set memo is kept; otherwise a cached entry is taken; otherwise, when `file` and `tags` are truthy, the built markup becomes the memo and is cached, and else the memo becomes `[]`. |
| `Manager.HtmlMemoHit` | src/FaviconManager.php:49-90 | Once the memo is set, even to `[]`, a call changes nothing and reads neither cache nor settings. |
| `Manager.HtmlCacheHit` | src/FaviconManager.php:50-54 | On a cache hit the memo becomes the cached data, and the cache is not written. |
| `Manager.HtmlEmptySettings` | src/FaviconManager.php:56-90 | On a miss with empty `file` or `tags`, the memo becomes `[]` and the cache is untouched. The returned value is a TypeError. |
| `Manager.HtmlZeroTagsAreEmpty` | src/FaviconManager.php:60 | Tag markup `"0"` is falsy, so it takes the empty branch. |
| `Manager.HtmlBuilds` | src/FaviconManager.php:60-87 | On a miss with both set, the joined markup becomes the memo and is stored under `neo_favicon`. |
| `Manager.HtmlStepIdempotent` | src/FaviconManager.php:48-91 | A second call leaves the state and the result as the first call left them, even if settings or files changed in between. |
| `Manager.HtmlAfterInvalidation` | src/FaviconManager.php:50-87 | A fresh manager whose cache entry was invalidated rebuilds the markup from the current settings, when `file` and `tags` are both truthy. |
| `Manager.TwoHtmlCalls` | src/FaviconManager.php:48-91 | Two calls on one manager return the same result. |
| `Manager.ScanThrows` | src/FaviconManager.php:101-108 | The call reaches `scanDirectory` (memo unset, no cache entry) and the directory is missing, so the scan throws. |
| `Manager.ImagesStep` | src/FaviconManager.php:100-122 | One `getImages()` call as a transition of memo and cache: a set memo is kept; otherwise a cached entry is taken; otherwise a missing directory leaves everything as it was, and else the inventory of the scan becomes the memo and is cached. |
| `Manager.ImagesResult` | src/FaviconManager.php:108-121 | What the call hands back: `NotRegularDirectoryException` when the scan throws, else the new memo as returned from `: array`. |
| `Manager.ImagesMemoHit` | src/FaviconManager.php:101-121 | Once the memo is set, a call changes nothing, touches neither cache nor directory, and returns the memo. |
| `Manager.ImagesCacheHit` | src/FaviconManager.php:101-106 | On a cache hit the memo becomes the cached data, null included, and nothing is scanned. |
| `Manager.ImagesMiss` | src/FaviconManager.php:107-117 | On a miss with the directory present and some existing scanned file, the memo and the `neo_favicon:images` entry are one entry per existing URI with its reported size, and that map is returned. |
| `Manager.ImagesEmptyScan` | src/FaviconManager.php:100-121 | If no scanned file exists, null is cached and the memo stays unset. The call returns a TypeError, and the next call takes the cache branch and changes nothing. |
| `Manager.ImagesMissingDirectory` | src/FaviconManager.php:107-108 | When the directory is missing, the call throws `NotRegularDirectoryException`, assigns and caches nothing, and the next call behaves as a first call. |
| `Manager.ImagesStepIdempotent` | src/FaviconManager.php:100-122 | Unless the first call threw, a second `getImages()` call leaves the state and result unchanged. |
| `Markup.LinkPath` | src/FaviconManager.php:69 | The probed path: `public://neo-favicon` followed directly by the `href`, with no separator. |
| `Markup.Rewritten` | src/FaviconManager.php:71 | The link with its `href` set to the public URL of its path. |
| `Markup.LinkFragment` | src/FaviconManager.php:70-73 | One link's contribution: its rewritten serialisation when `file_exists` holds for its path, else nothing. |
| `Markup.LinkFragments` | src/FaviconManager.php:66-75 | The link loop's list after visiting a prefix of the links: the previous list plus the last link's contribution. |
| `Markup.Fragments` | src/FaviconManager.php:66-83 | All fragments of a parsed document: the link loop's list, then the meta loop's. |
| `Markup.Implode` | src/FaviconManager.php:84 | PHP's `implode`: the parts with the separator between neighbours, `""` for no parts. |
| `Markup.Joined` | src/FaviconManager.php:84 | `implode(PHP_EOL, $data) . PHP_EOL`. |
| `Markup.BuiltMarkup` | src/FaviconManager.php:62-84 | The string built from the tag markup: parse it, collect the fragments, join them. |
| `Markup.ShouldBuild` | src/FaviconManager.php:60 | `$file && $tags`: the archive reference is truthy and the tag markup is present and truthy. |
| `Markup.LinkFragmentsAppend` | src/FaviconManager.php:66-74 | The link loop distributes over concatenation, so kept links stay in document order. |
| `Markup.LinkKeptIff` | src/FaviconManager.php:66-74 | A link adds exactly one fragment at its position if `file_exists('public://neo-favicon' . href)` holds. Otherwise it adds nothing. |
| `Markup.RewrittenChangesOnlyHref` | src/FaviconManager.php:69-72 | A kept link's `href` becomes the URL of its path. Its tag and all other attributes keep their values and positions. |
| `Markup.MissingHrefProbesDirectory` | src/FaviconManager.php:69 | A link with no `href` probes the bare directory `public://neo-favicon`, and is kept, its `href` rewritten to the directory's URL, exactly when `file_exists` holds for that directory. |
| `Markup.MetaFragments` | src/FaviconManager.php:78-83 | There is one fragment per meta, in order: the serialisation of the unmodified element. |
| `Markup.MetaFragmentsAppend` | src/FaviconManager.php:78-83 | The meta loop distributes over concatenation, so metas stay in document order. |
| `Markup.FragmentsOrder` | src/FaviconManager.php:66-83 | For a document `a + b`, the fragments are kept links of `a`, kept links of `b`, metas of `a`, then metas of `b`. |
| `Markup.JoinedEolCount` | src/FaviconManager.php:84 | If no fragment contains a newline, k fragments give exactly k newlines, and zero fragments give one. |
| `Markup.JoinedLinesRoundTrip` | src/FaviconManager.php:84 | Splitting the markup into lines gives the fragments back, when there is at least one fragment and none has a newline. No fragments and one empty fragment both give `"\n"`. |
| `Markup.ExampleMarkup` | src/FaviconManager.php:60-84 | Worked case: a present and a missing icon link plus a theme-color meta. The result is the rewritten present link and the meta, each followed by a newline. |
| `Dom.ElementsByTagNameExact` | src/FaviconManager.php:66 | `getElementsByTagName` selects exactly the document's elements with that tag. |
| `Dom.ElementsByTagNameAppend` | src/FaviconManager.php:78 | Selection by tag keeps document order (it distributes over concatenation). |
| `Dom.SetThenGet` | src/FaviconManager.php:71 | After `setAttribute`, that attribute reads back as the new value, and every other attribute reads as before. |
| `Dom.SetAttributeKeepsRest` | src/FaviconManager.php:71 | `setAttribute` keeps the tag name and other attributes in place, and appends only when the attribute was absent. |
| `Dom.LookupMissing` | src/FaviconManager.php:69 | `getAttribute` of an absent attribute is the empty string. |
| `Images.PngMask` | src/FaviconManager.php:108 | The mask `/.*.png$/i`: any one non-newline character then `png` in any case at the end, or just before a final newline. |
| `Images.EntryFor` | src/FaviconManager.php:110-114 | One entry: the width and height `getimagesize` reports, or null for both when it returns false. |
| `Images.Put` | src/FaviconManager.php:111-114 | `$this->images[$uri] = $entry`: null becomes a one-entry array; an array gains or overwrites that key. |
| `Images.Inventory` | src/FaviconManager.php:108-116 | `$this->images` after the loop has visited a prefix of the scan, starting from null: each existing file puts its entry. |
| `Images.PngMaskExamples` | src/FaviconManager.php:108 | The mask accepts `a.png`, `apng`, `.png` and upper-case suffixes. It rejects `png`, `b.txt` and `a.png.txt`. |
| `Images.Scan` | src/FaviconManager.php:108 | The scan yields exactly the listed files whose name matches the mask. |
| `Images.InventoryExact` | src/FaviconManager.php:108-116 | The inventory is null when no scanned file exists. Otherwise it has exactly one entry per existing URI, holding width and height, or nulls when decoding fails. |
| `Php.StringTruthy` | src/FaviconManager.php:60 | PHP truthiness of a string: false for `""` and `"0"`, true otherwise. |
| `Php.Truthy` | src/FaviconManager.php:60 | PHP truthiness of a configuration value: absent, `""`, `"0"`, `0` and an empty ID list are false. |
| `Php.ReturnString` | src/FaviconManager.php:90 | `return $this->data;` from a method declared `: string`: the string, or a TypeError for `[]` or null. |
| `Php.ReturnArray` | src/FaviconManager.php:121 | `return $this->images;` from a method declared `: array`: the array, or a TypeError for null. |

## Left out

- src/EventSubscriber/FaviconConfigFileSubscriber.php is not part of this model. It only prepares, deletes and extracts the directory through framework services.
- src/Form/SettingsForm.php is not part of this model. It consists of form arrays and a config save; its one computation is the `trim` of the tags.
- src/Plugin/ToolbarItem/Favicon.php is not part of this model. It handles plugin wiring, rendering and the external image cropper; its one computation is the `width > 100` filter.
- HTML parsing (`loadHTML`) and serialisation (`saveXML`) are a foreign library. They are the oracles `parse` and `saveXml`, and `parse` is assumed to give elements in document order with tag names already normalised.
- `file_exists`, `generateString`, `getimagesize` and the directory walk are oracles. The walk is `listing`, which is absent when the directory is not a directory; `file_exists` may hold for directories as well as files. The model does not cover how the walk recurses or skips hidden files, nor the warning PHP emits when it indexes `false`.
- The cache backend is a map from cache ID to value. Its permanence and tag-based invalidation belong to the framework and are left out.
- `setAttribute` changes the live DOM element in place. The model computes a new element value instead. Nothing reads the old element afterwards, so no observable behaviour is lost.
- The image inventory is a `map`, so the model does not keep PHP's insertion order of its keys.
- `PHP_EOL` is fixed to `"\n"`, as on Unix hosts.
- The `tags` setting is a string or absent. A non-string value would fail in `loadHTML` and is not modelled.
- Concurrency between saves and reads is left out; the code has none.
