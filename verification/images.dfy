/**
 * What getImages() computes on a cache miss: the files below the extraction
 * directory whose name matches `/.*.png$/i`, and for every one that exists,
 * an entry keyed by its URI holding the width and height getimagesize()
 * reports.
 */
module Images {
  import opened Php
  import opened Services

  /** The cache ID of the image inventory. */
  const IMAGES_CID := "neo_favicon:images"

  /** What FileSystemInterface::scanDirectory throws when its directory is not a directory. */
  const NOT_REGULAR_DIRECTORY := "NotRegularDirectoryException"

  predicate IsP(c: char) { c == 'p' || c == 'P' }
  predicate IsN(c: char) { c == 'n' || c == 'N' }
  predicate IsG(c: char) { c == 'g' || c == 'G' }

  /** `.png` at the very end, where `.` is any character except a newline and the letters ignore case. */
  predicate EndsWithMaskedPng(s: string) {
    |s| >= 4 && s[|s| - 4] != '\n' && IsP(s[|s| - 3]) && IsN(s[|s| - 2]) && IsG(s[|s| - 1])
  }

  /**
   * preg_match('/.*.png$/i', name): the dot is not escaped, so any one
   * character may stand before "png"; `$` also matches before a final newline.
   */
  predicate PngMask(name: string) {
    EndsWithMaskedPng(name) || (|name| >= 1 && name[|name| - 1] == '\n' && EndsWithMaskedPng(name[..|name| - 1]))
  }

  /** The mask on the names the module's own documentation and archives use. */
  lemma PngMaskExamples()
    ensures PngMask("a.png") && PngMask("apple-touch-icon.PNG") && PngMask("favicon-32x32.Png")
    ensures PngMask("apng") && PngMask(".png") && PngMask("a.png\n")
    ensures !PngMask("png") && !PngMask("b.txt") && !PngMask("a.png.txt") && !PngMask("\npng")
  {
  }

  /** FileSystemInterface::scanDirectory with the mask: the matching files, in scan order. */
  function Scan(listing: seq<DirEntry>): (r: seq<DirEntry>)
    ensures forall f :: f in r <==> f in listing && PngMask(f.filename)
  {
    if listing == [] then []
    else (if PngMask(listing[0].filename) then [listing[0]] else []) + Scan(listing[1..])
  }

  /** One inventory entry; a failed decode yields null width and height, not a skipped entry. */
  function EntryFor(size: Option<(int, int)>): (entry: ImageEntry) {
    match size
    case Some((w, h)) => ImageEntry(Some(w), Some(h))
    case None => ImageEntry(None, None)
  }

  /** `$this->images[$uri] = $entry`: null becomes a one-entry array, an array gains or updates the key. */
  function Put(v: Value, uri: string, entry: ImageEntry): (updated: Value)
    requires !v.Text?
  {
    match v
    case Null => Array(map[uri := entry])
    case Array(m) => Array(m[uri := entry])
  }

  /** `$this->images` after the loop has visited `files`, starting from null. */
  function Inventory(files: seq<DirEntry>, env: Env): (r: Value)
    ensures !r.Text?
    decreases |files|
  {
    if files == [] then Null
    else
      var before := Inventory(files[..|files| - 1], env);
      var f := files[|files| - 1];
      if env.fileExists(f.uri) then Put(before, f.uri, EntryFor(env.imageSize(f.uri))) else before
  }

  /** The URIs of the visited files that exist. */
  function Existing(files: seq<DirEntry>, env: Env): (uris: set<string>) {
    set f | f in files && env.fileExists(f.uri) :: f.uri
  }

  /**
   * The inventory in closed form: null when no visited file exists (no
   * entry was ever assigned), otherwise exactly one entry per existing URI,
   * holding that URI's reported size or nulls when it did not decode.
   */
  lemma {:induction false} InventoryExact(files: seq<DirEntry>, env: Env)
    ensures Inventory(files, env)
            == if Existing(files, env) == {} then Null
               else Array(map u | u in Existing(files, env) :: EntryFor(env.imageSize(u)))
    decreases |files|
  {
    if files != [] {
      var init := files[..|files| - 1];
      var f := files[|files| - 1];
      InventoryExact(init, env);
      assert files == init + [f];
      var before, after := Existing(init, env), Existing(files, env);
      assert after == before + (if env.fileExists(f.uri) then {f.uri} else {});
      if env.fileExists(f.uri) {
        var entry := EntryFor(env.imageSize(f.uri));
        var m := map u | u in before :: EntryFor(env.imageSize(u));
        assert m[f.uri := entry] == map u | u in after :: EntryFor(env.imageSize(u));
      }
    }
  }
}
