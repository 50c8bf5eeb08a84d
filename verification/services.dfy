/**
 * The collaborators of the favicon manager, as the manager observes them
 * during one call: the `neo_favicon.settings` configuration record, the file
 * system, the URL generator, the HTML parser and serialiser, the image
 * header reader and the directory scan. Each is an oracle; none is modelled.
 */
module Services {
  import opened Php
  import opened Dom

  /** The `neo_favicon.settings` record: the uploaded archive reference and the tag markup. */
  datatype Settings = Settings(file: ConfigValue, tags: Option<string>)

  /** One file under the extraction directory, as the recursive scan reports it. */
  datatype DirEntry = DirEntry(uri: string, filename: string)

  datatype Env = Env(
    settings: Settings,
    // file_exists()
    fileExists: string -> bool,
    // FileUrlGeneratorInterface::generateString()
    urlOf: string -> string,
    // DOMDocument::loadHTML(), giving every element of the parsed document in document order
    parse: string -> seq<Element>,
    // DOMDocument::saveXML() of one element
    saveXml: Element -> string,
    // getimagesize(): width and height, or None where it returns false
    imageSize: string -> Option<(int, int)>,
    // every file below the extraction directory, in the order the scan visits
    // them; None when public://neo-favicon is not a directory (before the
    // first archive is saved, or after the settings are deleted)
    listing: Option<seq<DirEntry>>)
}
