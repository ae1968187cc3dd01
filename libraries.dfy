/**
 * The library code the cache calls but does not define, as function values:
 * `json`, `html.parser`, `urllib.parse.unquote`, `gzip`, `bz2` and `tarfile`.
 */
module Libraries {
  import opened Results
  import opened Formats
  import opened FileSystem
  import opened Links

  datatype Library = Library(
    /** `json.load` of a file's text; `None` where it raises `ValueError` */
    load: Bytes -> Option<Info>,
    /** `json.dump` */
    dump: Info -> Bytes,
    /** the start tags `HTMLParser` reports for a page */
    startTags: Bytes -> seq<StartTag>,
    /** `urllib.parse.unquote` */
    unquote: string -> string,
    /** `gzip` decompression; `None` for a stream it rejects */
    gunzip: Bytes -> Option<Bytes>,
    /** `bz2` decompression; `None` for a stream it rejects */
    bunzip2: Bytes -> Option<Bytes>,
    /** the members of a tar archive (read with transparent compression) as a tree relative to the extraction directory; `None` for a blob `tarfile.open` rejects */
    untar: Bytes -> Option<Disk>)

  /** `json.load` reads back what `json.dump` wrote. */
  ghost predicate JsonRoundTrips(lib: Library) {
    forall i :: lib.load(lib.dump(i)) == Some(i)
  }

  /** The members of every archive form a tree of proper names. */
  ghost predicate ArchivesAreTrees(lib: Library) {
    forall b :: lib.untar(b).Some? ==> Valid(lib.untar(b).value)
  }
}
