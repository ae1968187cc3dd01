/**
 * `ServerFiles`: the repository's HTTP server, seen through the responses it
 * gives. Sessions, authentication, certificates and timeouts are not part of
 * this model.
 */
module Remote {
  import opened Results
  import opened Text
  import opened Formats
  import opened FileSystem
  import opened Links
  import opened Libraries
  import Paths

  /** A `content-length` header as `int()` reads it: a whole number, or text it rejects. */
  datatype ContentLength = Count(size: int) | Garbled

  /** What one GET returns: the status, the `content-length` header if sent, and the body. */
  datatype Response = Response(status: int, contentLength: Option<ContentLength>, body: Bytes)

  /**
   * The server: the response for each URL below the server root, keyed by
   * the names `"/".join` puts together into that URL; other URLs answer 404.
   */
  datatype Server = Server(pages: map<seq<string>, Response>)

  /** `_open(*path)`: GET of `server + "/".join(path)`. */
  function Open(srv: Server, path: seq<string>): Response {
    if path in srv.pages then srv.pages[path] else Response(404, None, [])
  }

  /**
   * Keying the pages by names loses nothing: two sequences of proper names
   * join into the same URL only when they are the same sequence.
   */
  lemma UrlNamesOnePage(a: seq<string>, b: seq<string>)
    requires |a| >= 1 && forall k :: 0 <= k < |a| ==> Paths.IsSegment(a[k])
    requires |b| >= 1 && forall k :: 0 <= k < |b| ==> Paths.IsSegment(b[k])
    ensures Join(a, "/") == Join(b, "/") <==> a == b
  {
    Paths.SplitPathOfJoin(a);
    Paths.SplitPathOfJoin(b);
  }

  /**
   * `ServerFiles.info(*path)`: GET of the path with `.info` appended to its
   * last name. A 200 answer is parsed as JSON (malformed JSON raises
   * `ValueError`); any other status means "no info" and gives `{}`.
   */
  function Info(srv: Server, lib: Library, path: seq<string>): (r: Result<Info, Error>)
    ensures |path| == 0 ==> r == Err(IndexError)
    ensures |path| >= 1 && Open(srv, Sidecar(path)).status != 200 ==> r == Ok(map[])
    ensures |path| >= 1 && Open(srv, Sidecar(path)).status == 200 ==>
              r == match lib.load(Open(srv, Sidecar(path)).body)
                   case Some(i) => Ok(i)
                   case None => Err(ValueError)
    ensures r.Ok? && r.value != map[] ==> lib.load(Open(srv, Sidecar(path)).body) == Some(r.value)
  {
    if |path| == 0 then Err(IndexError)
    else
      var t := Open(srv, Sidecar(path));
      if t.status == 200 then
        match lib.load(t.body)
        case Some(i) => Ok(i)
        case None => Err(ValueError)
      else Ok(map[])
  }

  /**
   * The transfer in `ServerFiles.download`: 404 raises `FileNotFoundError`,
   * any other status but 200 raises `IOError`, a missing `content-length`
   * makes `int(None)` raise `TypeError` and one that is not a number makes
   * `int` raise `ValueError`. The body is copied only when the announced size
   * is positive; otherwise the target receives no bytes.
   */
  function Fetch(srv: Server, path: seq<string>): (r: Result<Bytes, Error>)
    ensures r.Ok? <==> Open(srv, path).status == 200 && Open(srv, path).contentLength.Some?
                       && Open(srv, path).contentLength.value.Count?
    ensures Open(srv, path).status == 404 ==> r == Err(FileNotFoundError)
    ensures Open(srv, path).status != 404 && Open(srv, path).status != 200 ==> r == Err(OSError(Unspecified))
    ensures Open(srv, path).status == 200 && Open(srv, path).contentLength == None ==> r == Err(TypeError)
    ensures Open(srv, path).status == 200 && Open(srv, path).contentLength == Some(Garbled) ==> r == Err(ValueError)
    ensures r.Ok? ==> r.value == if Open(srv, path).contentLength.value.size > 0 then Open(srv, path).body else []
  {
    var resp := Open(srv, path);
    if resp.status == 404 then Err(FileNotFoundError)
    else if resp.status != 200 then Err(OSError(Unspecified))
    else match resp.contentLength
      case None => Err(TypeError)
      case Some(Garbled) => Err(ValueError)
      case Some(Count(size)) => Ok(if size > 0 then resp.body else [])
  }

  /** A link that `listfiles` reports as a file: not a sub-directory and not an `.info` file. */
  predicate IsFileLink(f: string) {
    !EndsWith(f, "/") && !EndsWith(f, ".info")
  }

  /** `[args + (f,) for f in links if ...]`: the file links, as paths below `args`. */
  function FileEntries(args: seq<string>, links: seq<string>): (r: seq<seq<string>>)
    ensures forall x :: x in r ==> |x| == |args| + 1 && x[..|args|] == args
                                   && x[|args|] in links && IsFileLink(x[|args|])
    ensures forall f :: f in links && IsFileLink(f) ==> args + [f] in r
    decreases |links|
  {
    if |links| == 0 then []
    else
      var init, f := links[..|links| - 1], links[|links| - 1];
      var r := FileEntries(args, init) + (if IsFileLink(f) then [args + [f]] else []);
      assert forall g :: g in links ==> g in init || g == f;
      assert (args + [f])[..|args|] == args;
      r
  }

  /** `s.lstrip('/')` */
  function LStripSlashes(s: string): (r: string)
    ensures |r| <= |s|
    decreases |s|
  {
    if |s| > 0 && s[0] == '/' then LStripSlashes(s[1..]) else s
  }

  /** `f.strip("/")` */
  function StripSlashes(f: string): string {
    LStripSlashes(Paths.RStripSlashes(f))
  }

  /** The links of the index page at `args`. */
  function LinksAt(srv: Server, lib: Library, args: seq<string>): seq<string> {
    PageLinks(lib.startTags(Open(srv, args).body), lib.unquote)
  }

  /**
   * `ServerFiles.listfiles(*args, recursive=...)`: the files of the index at
   * `args`, then, when recursive, the listings of its sub-directory links in
   * order. The status of the index page is not checked. A server whose
   * sub-directory links lead back up makes the source recurse without end;
   * `fuel` bounds the depth and `None` means it ran out.
   */
  function ListFiles(srv: Server, lib: Library, args: seq<string>, recursive: bool, fuel: nat)
    : Option<seq<seq<string>>>
    decreases fuel, 1, 0
  {
    var links := LinksAt(srv, lib, args);
    var files := FileEntries(args, links);
    if !recursive then Some(files)
    else match Descend(srv, lib, args, links, fuel)
      case None => None
      case Some(below) => Some(files + below)
  }

  /** The recursive part of `listfiles`: the listings of the sub-directory links among `links`. */
  function Descend(srv: Server, lib: Library, args: seq<string>, links: seq<string>, fuel: nat)
    : Option<seq<seq<string>>>
    decreases fuel, 0, |links|
  {
    if |links| == 0 then Some([])
    else match Descend(srv, lib, args, links[..|links| - 1], fuel)
      case None => None
      case Some(acc) =>
        var f := links[|links| - 1];
        if !EndsWith(f, "/") then Some(acc)
        else if fuel == 0 then None
        else match ListFiles(srv, lib, args + [StripSlashes(f)], true, fuel - 1)
          case None => None
          case Some(sub) => Some(acc + sub)
  }

  /**
   * Every path a listing reports lies strictly below `args` and ends in a
   * file link: no directory link and no `.info` file is ever reported.
   */
  lemma {:induction false} ListFilesReportsFiles(srv: Server, lib: Library, args: seq<string>, recursive: bool, fuel: nat)
    requires ListFiles(srv, lib, args, recursive, fuel).Some?
    ensures forall x :: x in ListFiles(srv, lib, args, recursive, fuel).value ==>
              |x| > |args| && x[..|args|] == args && IsFileLink(x[|x| - 1])
    decreases fuel, 1, 0
  {
    var links := LinksAt(srv, lib, args);
    if recursive {
      DescendReportsFiles(srv, lib, args, links, fuel);
    }
  }

  lemma {:induction false} DescendReportsFiles(srv: Server, lib: Library, args: seq<string>, links: seq<string>, fuel: nat)
    requires Descend(srv, lib, args, links, fuel).Some?
    ensures forall x :: x in Descend(srv, lib, args, links, fuel).value ==>
              |x| > |args| && x[..|args|] == args && IsFileLink(x[|x| - 1])
    decreases fuel, 0, |links|
  {
    if |links| > 0 {
      var init, f := links[..|links| - 1], links[|links| - 1];
      DescendReportsFiles(srv, lib, args, init, fuel);
      if EndsWith(f, "/") {
        var sub := args + [StripSlashes(f)];
        ListFilesReportsFiles(srv, lib, sub, true, fuel - 1);
        forall x | x in ListFiles(srv, lib, sub, true, fuel - 1).value
          ensures |x| > |args| && x[..|args|] == args
        {
          assert x[..|args|] == x[..|sub|][..|args|];
        }
      }
    }
  }

  /** A finished listing, recursive or not, reports every file link of the index at `args`. */
  lemma ListFilesReportsEveryFileLink(srv: Server, lib: Library, args: seq<string>, recursive: bool, fuel: nat, f: string)
    requires ListFiles(srv, lib, args, recursive, fuel).Some?
    requires f in LinksAt(srv, lib, args) && IsFileLink(f)
    ensures args + [f] in ListFiles(srv, lib, args, recursive, fuel).value
  {
  }

  /**
   * A recursive listing descends into every sub-directory link of the index
   * at `args`: the listing below that link finishes too, and everything it
   * reports is reported.
   */
  lemma ListFilesIncludesSubListings(srv: Server, lib: Library, args: seq<string>, fuel: nat, f: string)
    requires ListFiles(srv, lib, args, true, fuel).Some?
    requires f in LinksAt(srv, lib, args) && EndsWith(f, "/")
    ensures fuel >= 1 && ListFiles(srv, lib, args + [StripSlashes(f)], true, fuel - 1).Some?
    ensures forall x :: x in ListFiles(srv, lib, args + [StripSlashes(f)], true, fuel - 1).value ==>
              x in ListFiles(srv, lib, args, true, fuel).value
  {
    var links := LinksAt(srv, lib, args);
    var k :| 0 <= k < |links| && links[k] == f;
    DescendIncludes(srv, lib, args, links, fuel, k);
  }

  /** The sub-directory link at `k` among `links` has its listing inside the recursion's result. */
  lemma {:induction false} DescendIncludes(srv: Server, lib: Library, args: seq<string>, links: seq<string>, fuel: nat, k: nat)
    requires Descend(srv, lib, args, links, fuel).Some?
    requires k < |links| && EndsWith(links[k], "/")
    ensures fuel >= 1 && ListFiles(srv, lib, args + [StripSlashes(links[k])], true, fuel - 1).Some?
    ensures forall x :: x in ListFiles(srv, lib, args + [StripSlashes(links[k])], true, fuel - 1).value ==>
              x in Descend(srv, lib, args, links, fuel).value
    decreases |links|
  {
    var init := links[..|links| - 1];
    if k < |links| - 1 {
      assert init[k] == links[k];
      DescendIncludes(srv, lib, args, init, fuel, k);
    }
  }

  /** A listing that does not recurse reports only the immediate children of `args`. */
  lemma ListFilesFlat(srv: Server, lib: Library, args: seq<string>, fuel: nat)
    ensures ListFiles(srv, lib, args, false, fuel) == Some(FileEntries(args, LinksAt(srv, lib, args)))
    ensures forall x :: x in ListFiles(srv, lib, args, false, fuel).value ==> |x| == |args| + 1 && x[..|args|] == args
  {
  }
}
