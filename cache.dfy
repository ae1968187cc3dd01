/**
 * `LocalFiles`: the local mirror. Every cached artifact `P` (a file, or the
 * directory a tar archive was extracted into) lives under the cache
 * directory beside its sidecar `P.info`, a JSON copy of the server's info
 * for `P`. This module gives the effect of each operation as a function of
 * the disk before it, and the class performs the same steps one by one.
 */
module Cache {
  import opened Results
  import opened Text
  import opened Formats
  import opened FileSystem
  import opened Libraries
  import Remote
  import Locks
  import Paths

  /** What an operation leaves behind: the new disk, and the exception it raised, if any. */
  datatype Effect = Effect(disk: Disk, raised: Option<Error>)

  /** What `remove` leaves behind; `logged` is the `OSError` it prints instead of raising. */
  datatype Removal = Removal(disk: Disk, raised: Option<Error>, logged: Option<Error>)

  // ---------------------------------------------------------------------------
  // Reading the cache
  // ---------------------------------------------------------------------------

  /**
   * `LocalFiles.info(*path)`: the parsed sidecar of `path`. A missing sidecar
   * raises `FileNotFoundError`, malformed JSON raises `ValueError`.
   */
  function LocalInfo(d: Disk, lib: Library, path: Path): (r: Result<Info, Error>)
    requires |path| >= 1
    ensures r.Ok? <==> Sidecar(path) in d && d[Sidecar(path)].File? && lib.load(d[Sidecar(path)].data).Some?
    ensures r.Ok? ==> Some(r.value) == lib.load(d[Sidecar(path)].data)
    ensures Valid(d) && Sidecar(path) !in d && !BelowFile(d, Sidecar(path)) ==> r == Err(FileNotFoundError)
  {
    match ReadFile(d, Sidecar(path))
    case Err(e) => Err(e)
    case Ok(text) =>
      match lib.load(text)
      case Some(i) => Ok(i)
      case None => Err(ValueError)
  }

  /** `info["datetime"][:19]` parsed; `KeyError` when the key is absent. */
  function DatetimeOf(i: Info): Result<Stamp, Error> {
    if "datetime" !in i then Err(KeyError) else StampOf(i["datetime"])
  }

  /** The local timestamp of `path`, as `needs_update` computes it. */
  function LocalStamp(d: Disk, lib: Library, path: Path): Result<Stamp, Error>
    requires |path| >= 1
  {
    var linfo :- LocalInfo(d, lib, path);
    DatetimeOf(linfo)
  }

  /** The server's timestamp of `path`; a server without info for it gives `{}`, hence `KeyError`. */
  function RemoteStamp(srv: Remote.Server, lib: Library, path: Path): (r: Result<Stamp, Error>)
    requires |path| >= 1
    ensures Remote.Open(srv, Sidecar(path)).status != 200 ==> r == Err(KeyError)
  {
    var rinfo :- Remote.Info(srv, lib, path);
    DatetimeOf(rinfo)
  }

  /** The body of the `try` in `needs_update`: local time first, then the server's. */
  function Freshness(d: Disk, srv: Remote.Server, lib: Library, path: Path): Result<bool, Error>
    requires |path| >= 1
  {
    var local :- LocalStamp(d, lib, path);
    var remote :- RemoteStamp(srv, lib, path);
    Ok(Later(remote, local))
  }

  /**
   * `needs_update(*path)`: `FileNotFoundError` and `KeyError` become `True`;
   * every other exception (a malformed sidecar, a malformed timestamp, a
   * timestamp that is not a string) escapes.
   */
  function NeedsUpdate(d: Disk, srv: Remote.Server, lib: Library, path: Path): (r: Result<bool, Error>)
    requires |path| >= 1
    ensures LocalInfo(d, lib, path) == Err(FileNotFoundError) ==> r == Ok(true)
    ensures LocalStamp(d, lib, path) == Err(KeyError) ==> r == Ok(true)
    ensures LocalStamp(d, lib, path).Ok? && RemoteStamp(srv, lib, path) == Err(KeyError) ==> r == Ok(true)
    ensures r == Ok(false) <==>
              && LocalStamp(d, lib, path).Ok? && RemoteStamp(srv, lib, path).Ok?
              && !Later(RemoteStamp(srv, lib, path).value, LocalStamp(d, lib, path).value)
    ensures (LocalStamp(d, lib, path).Err? && LocalStamp(d, lib, path).error !in {FileNotFoundError, KeyError})
              ==> r == Err(LocalStamp(d, lib, path).error)
    ensures LocalStamp(d, lib, path).Ok? && RemoteStamp(srv, lib, path).Ok? ==>
              r == Ok(Later(RemoteStamp(srv, lib, path).value, LocalStamp(d, lib, path).value))
    ensures (LocalStamp(d, lib, path).Ok? && RemoteStamp(srv, lib, path).Err?
             && RemoteStamp(srv, lib, path).error !in {FileNotFoundError, KeyError})
              ==> r == Err(RemoteStamp(srv, lib, path).error)
  {
    match Freshness(d, srv, lib, path)
    case Err(OSError(NotFound)) => Ok(true)
    case Err(KeyError) => Ok(true)
    case other => other
  }

  // ---------------------------------------------------------------------------
  // Downloading
  // ---------------------------------------------------------------------------

  /** The paths a download of `p` writes: its sidecar, its temporary file, and `p` with everything below it. */
  predicate Around(p: Path, q: Path)
    requires |p| >= 1
  {
    q == Sidecar(p) || q == TempOf(p) || IsPrefix(p, q)
  }

  /**
   * From `d` to `r` nothing changed but the paths around `p` and the missing
   * directories leading to `p`, which were created.
   */
  predicate OnlyEntryChanged(d: Disk, r: Disk, p: Path)
    requires |p| >= 1
  {
    && (forall q :: q in d && !Around(p, q) ==> q in r && r[q] == d[q])
    && (forall q :: q in r && q !in d ==> Around(p, q) || (IsPrefix(q, Parent(p)) && r[q] == Dir))
  }

  /** The last step of a successful extraction: `os.remove(target + ".tmp")`. */
  function DeleteTemp(d: Disk, target: Path): (e: Effect)
    requires |target| >= 1
    ensures e.raised == None <==> TempOf(target) in d && d[TempOf(target)].File?
    ensures e.disk == if e.raised == None then d - {TempOf(target)} else d
  {
    match RemoveFile(d, TempOf(target), {})
    case Err(err) => Effect(d, Some(err))
    case Ok(rest) => Effect(rest, None)
  }

  /** The decoders `download` chooses between, by the info's `compression` value. */
  datatype Codec = TarGz | TarBz2 | Gz | Bz2 | Unknown

  /** `gzip.open` or `bz2.BZ2File` read to the end; `None` when the stream is corrupt. */
  function Decode(lib: Library, codec: Codec, blob: Bytes): Option<Bytes>
    requires codec == Gz || codec == Bz2
  {
    if codec == Gz then lib.gunzip(blob) else lib.bunzip2(blob)
  }

  /** The decoder `download` picks for a `compression` value; every other value picks none. */
  function CodecOf(compression: Value): Codec {
    if compression == Str("tar.gz") then TarGz
    else if compression == Str("tar.bz2") then TarBz2
    else if compression == Str("gz") then Gz
    else if compression == Str("bz2") then Bz2
    else Unknown
  }

  /**
   * The compression values the module's documentation names, with their
   * leading dots, match none of the values `download` compares against.
   */
  lemma DocumentedCompressionsAreUnknown()
    ensures forall v :: v in [".bz2", ".gz", ".tar.gz", ".tar.bz2"] ==> CodecOf(Str(v)) == Unknown
  {
  }

  /**
   * The tar branch: the archive in the temporary file is expanded into the
   * directory `target` (created unless it exists), then the temporary file
   * is deleted. Only paths below `target` and the temporary file change.
   */
  function ExtractTar(d: Disk, lib: Library, target: Path, blob: Bytes): (e: Effect)
    requires |target| >= 1
    ensures Valid(d) && WellNamed(target) && ArchivesAreTrees(lib) ==> Valid(e.disk)
  {
    assert IsPrefix(target, target);
    match lib.untar(blob)
    case None => Effect(d, Some(ArchiveError))
    case Some(tree) =>
      var d1 := MakeDir(d, target);
      match Extract(d1, target, tree)
      case Err(err) => Effect(d1, Some(err))
      case Ok(d2) => DeleteTemp(d2, target)
  }

  /**
   * The `gz`/`bz2` branch: `open(target, "wb")` truncates the target before
   * the stream is read, the decompressed data is written, then the
   * temporary file is deleted. Only `target` and the temporary file change.
   */
  function Decompress(d: Disk, target: Path, decompressed: Option<Bytes>): (e: Effect)
    requires |target| >= 1
    ensures Valid(d) && WellNamed(target) ==> Valid(e.disk)
  {
    match WriteFile(d, target, [])
    case Err(err) => Effect(d, Some(err))
    case Ok(d1) =>
      match decompressed
      case None => Effect(d1, Some(ArchiveError))
      case Some(data) =>
        assert Valid(d) && WellNamed(target) ==> Valid(d1[target := File(data)]);
        DeleteTemp(d1[target := File(data)], target)
  }

  /**
   * The extraction branch of `download`, once `blob` sits in `target + ".tmp"`.
   * Any `compression` value other than the four known ones binds no decoder,
   * so `f.close()` raises `UnboundLocalError` and the temporary file stays.
   */
  function Materialize(d: Disk, lib: Library, target: Path, codec: Codec, blob: Bytes): (e: Effect)
    requires |target| >= 1
    ensures Valid(d) && WellNamed(target) && ArchivesAreTrees(lib) ==> Valid(e.disk)
  {
    assert IsPrefix(target, target);
    match codec
    case TarGz => ExtractTar(d, lib, target, blob)
    case TarBz2 => ExtractTar(d, lib, target, blob)
    case Gz => Decompress(d, target, Decode(lib, codec, blob))
    case Bz2 => Decompress(d, target, Decode(lib, codec, blob))
    case Unknown => Effect(d, Some(UnboundLocalError))
  }

  /**
   * The writes of a transfer once the parent directories exist: fetch the
   * payload into `dest`, then write the sidecar.
   */
  function Store(d: Disk, srv: Remote.Server, lib: Library, path: Path, info: Info, dest: Path): (e: Effect)
    requires |path| >= 1 && (dest == path || dest == TempOf(path))
  {
    match Remote.Fetch(srv, path)
    case Err(err) => Effect(d, Some(err))
    case Ok(payload) =>
      match WriteFile(d, dest, payload)
      case Err(err) => Effect(d, Some(err))
      case Ok(d2) =>
        match WriteFile(d2, Sidecar(path), lib.dump(info))
        case Err(err) => Effect(d2, Some(err))
        case Ok(d3) => Effect(d3, None)
  }

  /**
   * `ServerFiles.download(*path, target=dest)` followed by `_save_file_info`:
   * create the parent directories, fetch the payload into `dest`, then write
   * the sidecar. Only `dest`, the sidecar and new parent directories change.
   */
  function Transfer(d: Disk, srv: Remote.Server, lib: Library, path: Path, info: Info, dest: Path): (e: Effect)
    requires |path| >= 1 && (dest == path || dest == TempOf(path))
    ensures Valid(d) && WellNamed(path) ==> Valid(e.disk)
    ensures e.raised == None ==> Remote.Fetch(srv, path).Ok?
    ensures Remote.Fetch(srv, path).Err? ==> e.raised == Some(Remote.Fetch(srv, path).error)
    ensures e.raised == None ==> dest in e.disk && e.disk[dest] == File(Remote.Fetch(srv, path).value)
    ensures e.raised == None ==> Sidecar(path) in e.disk && e.disk[Sidecar(path)] == File(lib.dump(info))
  {
    assert WellNamed(path) ==> WellNamed(Parent(path));
    var d1 := MakeDirs(d, Parent(path));
    StoreValid(d1, srv, lib, path, info, dest);
    StoreWrites(d1, srv, lib, path, info, dest);
    Store(d1, srv, lib, path, info, dest)
  }

  /** When the writes of a transfer succeed, the fetch succeeded, `dest` holds the payload and the sidecar the info. */
  lemma StoreWrites(d: Disk, srv: Remote.Server, lib: Library, path: Path, info: Info, dest: Path)
    requires |path| >= 1 && (dest == path || dest == TempOf(path))
    ensures var e := Store(d, srv, lib, path, info, dest);
            && (e.raised == None ==> Remote.Fetch(srv, path).Ok?)
            && (e.raised == None ==> dest in e.disk && e.disk[dest] == File(Remote.Fetch(srv, path).value))
            && (e.raised == None ==> Sidecar(path) in e.disk && e.disk[Sidecar(path)] == File(lib.dump(info)))
  {
    Siblings(path);
    match Remote.Fetch(srv, path)
    case Err(err) =>
      assert Store(d, srv, lib, path, info, dest) == Effect(d, Some(err));
    case Ok(payload) =>
      match WriteFile(d, dest, payload)
      case Err(err) =>
        assert Store(d, srv, lib, path, info, dest) == Effect(d, Some(err));
      case Ok(d2) =>
        match WriteFile(d2, Sidecar(path), lib.dump(info))
        case Err(err) =>
          assert Store(d, srv, lib, path, info, dest) == Effect(d2, Some(err));
        case Ok(d3) =>
          assert d3 == d[dest := File(payload)][Sidecar(path) := File(lib.dump(info))];
          assert Store(d, srv, lib, path, info, dest) == Effect(d3, None);
  }

  /** The writes of a transfer keep the disk a tree. */
  lemma StoreValid(d: Disk, srv: Remote.Server, lib: Library, path: Path, info: Info, dest: Path)
    requires |path| >= 1 && (dest == path || dest == TempOf(path))
    ensures Valid(d) && WellNamed(path) ==> Valid(Store(d, srv, lib, path, info, dest).disk)
  {
    if Valid(d) && WellNamed(path) {
      SuffixWellNamed(path, ".tmp");
      SuffixWellNamed(path, ".info");
      var fetched := Remote.Fetch(srv, path);
      if fetched.Ok? {
        var w := WriteFile(d, dest, fetched.value);
        if w.Ok? {
          var w2 := WriteFile(w.value, Sidecar(path), lib.dump(info));
          assert w2.Ok? ==> Valid(w2.value);
        }
      }
    }
  }

  /**
   * `LocalFiles.download(*path, extract=extract)` without its lock: fetch the
   * server's info, transfer the payload (to `target + ".tmp"` when
   * extracting) and the sidecar, then extract. Whatever happens, only the
   * entry's own paths and its missing parent directories change.
   */
  function DownloadEffect(d: Disk, srv: Remote.Server, lib: Library, path: Path, extract: bool): (e: Effect)
    ensures Valid(d) && WellNamed(path) && ArchivesAreTrees(lib) ==> Valid(e.disk)
    ensures Remote.Info(srv, lib, path).Err? ==> e == Effect(d, Some(Remote.Info(srv, lib, path).error))
    ensures Remote.Info(srv, lib, path).Ok? && Remote.Fetch(srv, path).Err? ==>
              e.raised == Some(Remote.Fetch(srv, path).error)
  {
    match Remote.Info(srv, lib, path)
    case Err(err) => Effect(d, Some(err))
    case Ok(info) =>
      var unpack := extract && "compression" in info;
      var dest := if unpack then TempOf(path) else path;
      var sent := Transfer(d, srv, lib, path, info, dest);
      if sent.raised.Some? || !unpack then sent
      else Materialize(sent.disk, lib, path, CodecOf(info["compression"]), Remote.Fetch(srv, path).value)
  }

  /** From `d` to `r` only `target`, the paths below it and its temporary file changed. */
  predicate ChangedOnlyBelow(d: Disk, r: Disk, target: Path)
    requires |target| >= 1
  {
    && (forall q :: q in d && q != TempOf(target) && !IsPrefix(target, q) ==> q in r && r[q] == d[q])
    && (forall q :: q in r && q !in d ==> IsPrefix(target, q))
  }

  /** Changes below `target` followed by changes below `target` are changes below `target`. */
  lemma ChangedOnlyBelowTrans(a: Disk, b: Disk, c: Disk, target: Path)
    requires |target| >= 1 && ChangedOnlyBelow(a, b, target) && ChangedOnlyBelow(b, c, target)
    ensures ChangedOnlyBelow(a, c, target)
  {
  }

  /** Deleting the temporary file changes only what a download may change. */
  lemma DeleteTempFrame(d: Disk, target: Path)
    requires |target| >= 1
    ensures ChangedOnlyBelow(d, DeleteTemp(d, target).disk, target)
  {
  }

  lemma ExtractTarFrame(d: Disk, lib: Library, target: Path, blob: Bytes)
    requires |target| >= 1
    ensures ChangedOnlyBelow(d, ExtractTar(d, lib, target, blob).disk, target)
  {
    assert IsPrefix(target, target);
    match lib.untar(blob)
    case None =>
    case Some(tree) =>
      var d1 := MakeDir(d, target);
      assert ChangedOnlyBelow(d, d1, target);
      match Extract(d1, target, tree)
      case Err(_) =>
      case Ok(d2) =>
        assert ChangedOnlyBelow(d1, d2, target);
        ChangedOnlyBelowTrans(d, d1, d2, target);
        DeleteTempFrame(d2, target);
        ChangedOnlyBelowTrans(d, d2, DeleteTemp(d2, target).disk, target);
  }

  lemma DecompressFrame(d: Disk, target: Path, decompressed: Option<Bytes>)
    requires |target| >= 1
    ensures ChangedOnlyBelow(d, Decompress(d, target, decompressed).disk, target)
  {
    assert IsPrefix(target, target);
    match WriteFile(d, target, [])
    case Err(_) =>
    case Ok(d1) =>
      assert ChangedOnlyBelow(d, d1, target);
      match decompressed
      case None =>
      case Some(data) =>
        var d2 := d1[target := File(data)];
        assert ChangedOnlyBelow(d1, d2, target);
        ChangedOnlyBelowTrans(d, d1, d2, target);
        DeleteTempFrame(d2, target);
        ChangedOnlyBelowTrans(d, d2, DeleteTemp(d2, target).disk, target);
  }

  /** Extraction changes only the artifact, the paths below it and its temporary file. */
  lemma MaterializeFrame(d: Disk, lib: Library, target: Path, codec: Codec, blob: Bytes)
    requires |target| >= 1
    ensures ChangedOnlyBelow(d, Materialize(d, lib, target, codec, blob).disk, target)
  {
    match codec
    case TarGz => ExtractTarFrame(d, lib, target, blob);
    case TarBz2 => ExtractTarFrame(d, lib, target, blob);
    case Gz => DecompressFrame(d, target, Decode(lib, codec, blob));
    case Bz2 => DecompressFrame(d, target, Decode(lib, codec, blob));
    case Unknown =>
  }

  /** The writes of a transfer change only `dest` and the sidecar. */
  lemma StoreFrame(d: Disk, srv: Remote.Server, lib: Library, path: Path, info: Info, dest: Path)
    requires |path| >= 1 && (dest == path || dest == TempOf(path))
    ensures var r := Store(d, srv, lib, path, info, dest).disk;
            && (forall q :: q in d && q != dest && q != Sidecar(path) ==> q in r && r[q] == d[q])
            && (forall q :: q in r && q !in d ==> q == dest || q == Sidecar(path))
  {
    var fetched := Remote.Fetch(srv, path);
    if fetched.Ok? {
      var w := WriteFile(d, dest, fetched.value);
      if w.Ok? {
        var w2 := WriteFile(w.value, Sidecar(path), lib.dump(info));
        assert w2.Ok? ==> w2.value == d[dest := File(fetched.value)][Sidecar(path) := File(lib.dump(info))];
      }
    }
  }

  /** The transfer changes only `dest`, the sidecar, and creates missing parent directories. */
  lemma TransferFrame(d: Disk, srv: Remote.Server, lib: Library, path: Path, info: Info, dest: Path)
    requires |path| >= 1 && (dest == path || dest == TempOf(path))
    ensures var r := Transfer(d, srv, lib, path, info, dest).disk;
            && (forall q :: q in d && q != dest && q != Sidecar(path) ==> q in r && r[q] == d[q])
            && (forall q :: q in r && q !in d ==> q == dest || q == Sidecar(path) || (IsPrefix(q, Parent(path)) && r[q] == Dir))
  {
    StoreFrame(MakeDirs(d, Parent(path)), srv, lib, path, info, dest);
  }

  /**
   * A download, whatever its outcome, changes only the entry's own paths and
   * creates missing parent directories, provided archive members are proper
   * names below the extraction directory.
   */
  lemma DownloadTouchesOnlyEntry(d: Disk, srv: Remote.Server, lib: Library, path: Path, extract: bool)
    requires |path| >= 1 && ArchivesAreTrees(lib)
    ensures OnlyEntryChanged(d, DownloadEffect(d, srv, lib, path, extract).disk, path)
  {
    match Remote.Info(srv, lib, path)
    case Err(_) =>
    case Ok(info) =>
      var unpack := extract && "compression" in info;
      var dest := if unpack then TempOf(path) else path;
      var sent := Transfer(d, srv, lib, path, info, dest);
      TransferFrame(d, srv, lib, path, info, dest);
      SentFrame(d, sent.disk, path, dest);
      if sent.raised == None && unpack {
        var codec := CodecOf(info["compression"]);
        var blob := Remote.Fetch(srv, path).value;
        var m := Materialize(sent.disk, lib, path, codec, blob);
        assert DownloadEffect(d, srv, lib, path, extract) == m;
        MaterializeFrame(sent.disk, lib, path, codec, blob);
        ChainedFrames(d, sent.disk, m.disk, path);
      } else {
        assert DownloadEffect(d, srv, lib, path, extract) == sent;
      }
  }

  /** A transfer alone changes only what it may change. */
  lemma SentFrame(d: Disk, sent: Disk, path: Path, dest: Path)
    requires |path| >= 1 && (dest == path || dest == TempOf(path))
    requires forall q :: q in d && q != dest && q != Sidecar(path) ==> q in sent && sent[q] == d[q]
    requires forall q :: q in sent && q !in d ==> q == dest || q == Sidecar(path) || (IsPrefix(q, Parent(path)) && sent[q] == Dir)
    ensures OnlyEntryChanged(d, sent, path)
  {
    assert IsPrefix(path, path);
  }

  /** A transfer followed by an extraction changes only what each of them may change. */
  lemma ChainedFrames(d: Disk, sent: Disk, r: Disk, path: Path)
    requires |path| >= 1
    requires forall q :: q in d && q != TempOf(path) && q != Sidecar(path) ==> q in sent && sent[q] == d[q]
    requires forall q :: q in sent && q !in d ==> q == TempOf(path) || q == Sidecar(path) || (IsPrefix(q, Parent(path)) && sent[q] == Dir)
    requires ChangedOnlyBelow(sent, r, path)
    ensures OnlyEntryChanged(d, r, path)
  {
  }

  /** Appending a suffix without separators to the last name keeps a path well named. */
  lemma SuffixWellNamed(p: Path, suffix: string)
    requires |p| >= 1 && |suffix| >= 2 && Paths.NoSlash(suffix)
    ensures WellNamed(p) ==> WellNamed(WithSuffix(p, suffix))
  {
    if WellNamed(p) {
      var q := WithSuffix(p, suffix);
      var name := p[|p| - 1] + suffix;
      assert Paths.NoSlash(name) by {
        forall i | 0 <= i < |name| ensures name[i] != '/' {
          if i >= |p[|p| - 1]| { assert name[i] == suffix[i - |p[|p| - 1]|]; }
        }
      }
      assert forall k :: 0 <= k < |q| - 1 ==> q[k] == p[k];
    }
  }

  // ---------------------------------------------------------------------------
  // Listing
  // ---------------------------------------------------------------------------

  /**
   * `e` is a cache entry below `path`: the artifact exists and its sidecar is
   * a file whose content parses.
   */
  predicate Listed(d: Disk, lib: Library, path: Path, e: Path) {
    && |e| > |path| && e[..|path|] == path
    && e in d
    && Sidecar(e) in d && d[Sidecar(e)].File?
    && lib.load(d[Sidecar(e)].data).Some?
  }

  /** No path occurs twice in `s`. */
  predicate Distinct(s: seq<Path>) {
    forall i, j :: 0 <= i < j < |s| ==> s[i] != s[j]
  }

  lemma AppendDistinct(s: seq<Path>, x: Path)
    requires Distinct(s) && x !in s
    ensures Distinct(s + [x])
  {
  }

  /** `listed` holds every entry below `path` exactly once. */
  ghost predicate ListingOf(d: Disk, lib: Library, path: Path, listed: seq<Path>) {
    && (forall e :: e in listed <==> Listed(d, lib, path, e))
    && Distinct(listed)
  }

  /** The artifact a sidecar file `q` names: `q` without its `.info`. */
  function StemOf(q: Path): Path
    requires |q| >= 1 && |q[|q| - 1]| >= 5
  {
    var name := q[|q| - 1];
    Parent(q) + [name[..|name| - 5]]
  }

  lemma StemOfSidecar(e: Path)
    requires |e| >= 1
    ensures StemOf(Sidecar(e)) == e
  {
    var name := e[|e| - 1] + ".info";
    assert name[..|name| - 5] == e[|e| - 1];
  }

  lemma SidecarOfStem(q: Path)
    requires |q| >= 1 && EndsWith(q[|q| - 1], ".info")
    ensures Sidecar(StemOf(q)) == q
  {
    var name := q[|q| - 1];
    assert name[..|name| - 5] + ".info" == name;
  }

  /**
   * The walked file `q` is the sidecar of an entry: its name is a stem
   * followed by `.info`, the stem exists and the content parses.
   */
  predicate IsEntrySidecar(d: Disk, lib: Library, q: Path)
    requires q in d
  {
    && |q| >= 1 && EndsWith(q[|q| - 1], ".info") && |q[|q| - 1]| > 5
    && StemOf(q) in d && d[q].File? && lib.load(d[q].data).Some?
  }

  /** The walked file `q` is the sidecar of a listed entry exactly when it passes the test. */
  lemma SidecarOfListed(d: Disk, lib: Library, path: Path, q: Path)
    requires Valid(d) && q in d && |q| > |path| && q[..|path|] == path
    ensures forall e :: Listed(d, lib, path, e) && Sidecar(e) == q <==> IsEntrySidecar(d, lib, q) && e == StemOf(q)
  {
    forall e | Listed(d, lib, path, e) && Sidecar(e) == q
      ensures IsEntrySidecar(d, lib, q) && e == StemOf(q)
    {
      StemOfSidecar(e);
      assert IsName(e[|e| - 1]);
    }
    if IsEntrySidecar(d, lib, q) {
      var stem := StemOf(q);
      SidecarOfStem(q);
      assert stem[..|path|] == q[..|path|];
      assert Listed(d, lib, path, stem);
    }
  }

  /**
   * One step of the walk: taking the walked file `q` off `before` adds its
   * entry, if it is the sidecar of one, and keeps the listing duplicate-free.
   */
  lemma ListingStep(d: Disk, lib: Library, path: Path, before: set<Path>, q: Path, files: seq<Path>)
    requires Valid(d) && q in before && q in d && |q| > |path| && q[..|path|] == path
    requires forall e :: e in files <==> Listed(d, lib, path, e) && Sidecar(e) !in before
    requires Distinct(files)
    ensures var next := if IsEntrySidecar(d, lib, q) then files + [StemOf(q)] else files;
            && (forall e :: e in next <==> Listed(d, lib, path, e) && Sidecar(e) !in before - {q})
            && Distinct(next)
  {
    SidecarOfListed(d, lib, path, q);
    if IsEntrySidecar(d, lib, q) {
      SidecarOfStem(q);
      AppendDistinct(files, StemOf(q));
    }
  }

  /** `path + _split_path(os.path.relpath(stem, path))` gives back the entry `stem`. */
  lemma RelativeSplit(path: Path, stem: Path)
    requires WellNamed(stem) && |stem| > |path| && stem[..|path|] == path
    ensures Paths.Relative(Join(stem[|path|..], "/"))
    ensures path + Paths.SplitPathOf(Join(stem[|path|..], "/")) == stem
  {
    var below := stem[|path|..];
    assert forall k :: 0 <= k < |below| ==> below[k] == stem[|path| + k];
    Paths.SplitPathOfJoin(below);
    assert stem == stem[..|path|] + below;
  }

  /**
   * What `listfiles` as written appends for a walked file `q`: a name ending
   * in `.info` whose stem exists, with parseable content. The stem is joined
   * to the walked directory and `os.path.relpath` normalises the result, so
   * the stems that are not proper names resolve to directories: an empty
   * stem or `"."` to the walked directory itself, `".."` to its parent, which
   * lies outside the listing (`".."`) when the walked directory is the listed
   * one. A directory that is the listed one is reported as `"."`.
   */
  function EntryAsWritten(d: Disk, lib: Library, path: Path, q: Path): Option<Path>
    requires |q| > |path| && q in d && d[q].File?
  {
    var name := q[|q| - 1];
    var walked := Parent(q);
    if !EndsWith(name, ".info") || lib.load(d[q].data).None? then None
    else
      var stem := name[..|name| - 5];
      if stem == ".." && |walked| == |path| then
        // The parent of an existing directory exists; above the cache
        // directory it lies outside the modelled disk.
        if |walked| == 0 || Exists(d, Parent(walked)) then Some(path + [".."]) else None
      else
        var artifact :=
          if stem == "" || stem == "." then walked
          else if stem == ".." then Parent(walked)
          else walked + [stem];
        if !Exists(d, artifact) then None
        else
          var rel := artifact[|path|..];
          Some(path + (if rel == [] then ["."] else rel))
  }

  /**
   * As written, `listfiles` reports a directory holding a file named `.info`
   * as an entry although that directory has no sidecar.
   */
  lemma BareInfoFileListsItsDirectory(d: Disk, lib: Library)
    requires d == map[["sub"] := Dir, ["sub", ".info"] := File([])]
    requires forall text :: lib.load(text) == Some(map[])
    ensures Valid(d)
    ensures EntryAsWritten(d, lib, [], ["sub", ".info"]) == Some(["sub"])
    ensures Sidecar(["sub"]) !in d && !Listed(d, lib, [], ["sub"])
  {
    TinyCacheValid(d);
    BareInfoEntry(d, lib);
    SubSidecar();
    assert Sidecar(["sub"]) != ["sub"] by { assert |["sub"][0]| == 3; }
  }

  /** The sidecar of the entry `sub` is one name of eight characters. */
  lemma SubSidecar()
    ensures |Sidecar(["sub"])| == 1 && |Sidecar(["sub"])[0]| == 8
  {
    assert |["sub"][0]| == 3;
  }

  lemma BareInfoEntry(d: Disk, lib: Library)
    requires d == map[["sub"] := Dir, ["sub", ".info"] := File([])]
    requires forall text :: lib.load(text) == Some(map[])
    ensures EntryAsWritten(d, lib, [], ["sub", ".info"]) == Some(["sub"])
  {
    var q: Path := ["sub", ".info"];
    var name := q[|q| - 1];
    assert name == ".info";
    assert EndsWith(name, ".info") by { assert name[|name| - 5..] == name; }
    var stem := name[..|name| - 5];
    assert stem == "";
    var artifact := Parent(q);
    assert artifact == ["sub"];
    assert Exists(d, artifact) && lib.load(d[q].data).Some?;
    var rel := artifact[0..];
    assert rel == ["sub"];
    assert [] + rel == ["sub"];
  }

  lemma TinyCacheValid(d: Disk)
    requires d == map[["sub"] := Dir, ["sub", ".info"] := File([])]
    ensures Valid(d)
  {
    assert IsName("sub") && IsName(".info");
    forall p | p in d ensures |p| >= 1 && IsDir(d, Parent(p)) && WellNamed(p) {
      assert p == ["sub"] || p == ["sub", ".info"];
      if p == ["sub", ".info"] { assert Parent(p) == ["sub"]; }
    }
  }

  /**
   * As written, a file named `..info` lists the directory it sits in, which
   * has no sidecar: `os.path.join(root, ".")` normalises to `root`.
   */
  lemma DotInfoListsItsDirectory(d: Disk, lib: Library)
    requires d == map[["sub"] := Dir, ["sub", "..info"] := File([])]
    requires forall text :: lib.load(text) == Some(map[])
    ensures Valid(d)
    ensures EntryAsWritten(d, lib, [], ["sub", "..info"]) == Some(["sub"])
    ensures !Listed(d, lib, [], ["sub"])
  {
    assert IsName("sub") && IsName("..info");
    forall p | p in d ensures |p| >= 1 && IsDir(d, Parent(p)) && WellNamed(p) {
      assert p == ["sub"] || p == ["sub", "..info"];
      if p == ["sub", "..info"] { assert Parent(p) == ["sub"]; }
    }
    var q: Path := ["sub", "..info"];
    var name := q[|q| - 1];
    assert EndsWith(name, ".info") by { assert name[|name| - 5..] == ".info"; }
    var stem := name[..|name| - 5];
    assert stem == "." && stem != "..";
    var walked := Parent(q);
    assert walked == ["sub"] && |walked| != 0;
    assert Exists(d, walked) && lib.load(d[q].data).Some?;
    var rel := walked[0..];
    assert rel == ["sub"];
    assert [] + rel == ["sub"];
    SubSidecar();
    assert Sidecar(["sub"]) != ["sub"] by { assert |["sub"][0]| == 3; }
  }

  /**
   * As written, a file named `...info` one level below the listed directory
   * lists that directory itself, as `"."`, which is no entry of the cache.
   */
  lemma DotDotInfoListsTheListedDirectory(d: Disk, lib: Library)
    requires d == map[["sub"] := Dir, ["sub", "...info"] := File([])]
    requires forall text :: lib.load(text) == Some(map[])
    ensures Valid(d)
    ensures EntryAsWritten(d, lib, [], ["sub", "...info"]) == Some(["."])
    ensures !Listed(d, lib, [], ["."])
  {
    assert IsName("sub") && IsName("...info");
    forall p | p in d ensures |p| >= 1 && IsDir(d, Parent(p)) && WellNamed(p) {
      assert p == ["sub"] || p == ["sub", "...info"];
      if p == ["sub", "...info"] { assert Parent(p) == ["sub"]; }
    }
    var q: Path := ["sub", "...info"];
    var name := q[|q| - 1];
    assert EndsWith(name, ".info") by { assert name[|name| - 5..] == ".info"; }
    var stem := name[..|name| - 5];
    assert stem == ".." && stem != "" && stem != ".";
    var walked := Parent(q);
    assert walked == ["sub"] && |walked| != 0;
    assert Parent(walked) == [] && Exists(d, Parent(walked)) && lib.load(d[q].data).Some?;
    assert Parent(walked)[0..] == [] && [] + ["."] == ["."];
    assert ["."] != ["sub"] by { assert "." != "sub"; }
    assert ["."] != ["sub", "...info"];
  }

  /**
   * As written, a file named `...info` directly in the listed directory
   * reports `".."`, the directory above the listing.
   */
  lemma DotDotInfoEscapesTheListing(d: Disk, lib: Library)
    requires d == map[["...info"] := File([])]
    requires forall text :: lib.load(text) == Some(map[])
    ensures Valid(d)
    ensures EntryAsWritten(d, lib, [], ["...info"]) == Some([".."])
    ensures !Listed(d, lib, [], [".."]) && !WellNamed([".."])
  {
    assert IsName("...info");
    forall p | p in d ensures |p| >= 1 && IsDir(d, Parent(p)) && WellNamed(p) {
      assert p == ["...info"] && Parent(p) == [];
    }
    var q: Path := ["...info"];
    var name := q[|q| - 1];
    assert EndsWith(name, ".info") by { assert name[|name| - 5..] == ".info"; }
    var stem := name[..|name| - 5];
    assert stem == ".." && |Parent(q)| == 0 && lib.load(d[q].data).Some?;
    assert [] + [".."] == [".."];
    assert [".."] != ["...info"] by { assert ".." != "...info"; }
  }

  /**
   * When the stem of the walked file is a proper name (not empty, `"."` or
   * `".."`), the corrected entry is the one the source appends.
   */
  lemma AsWrittenAgreesOnSidecars(d: Disk, lib: Library, path: Path, q: Path)
    requires Valid(d) && |q| > |path| && q[..|path|] == path && q in d && d[q].File?
    requires EndsWith(q[|q| - 1], ".info") && IsName(StemOf(q)[|q| - 1])
    ensures EntryAsWritten(d, lib, path, q) == (if Listed(d, lib, path, StemOf(q)) then Some(StemOf(q)) else None)
  {
    var stem := StemOf(q);
    SidecarOfStem(q);
    assert stem[..|path|] == path by { assert stem[..|path|] == q[..|path|]; }
    assert path + stem[|path|..] == stem;
  }

  // ---------------------------------------------------------------------------
  // Updating and removing
  // ---------------------------------------------------------------------------

  /** `update(*path)`: download when `needs_update` says so; its exceptions escape. */
  function UpdateEffect(d: Disk, srv: Remote.Server, lib: Library, path: Path, extract: bool): (e: Effect)
    requires |path| >= 1
    ensures Valid(d) && WellNamed(path) && ArchivesAreTrees(lib) ==> Valid(e.disk)
  {
    match NeedsUpdate(d, srv, lib, path)
    case Err(err) => Effect(d, Some(err))
    case Ok(false) => Effect(d, None)
    case Ok(true) => DownloadEffect(d, srv, lib, path, extract)
  }

  /** `update` applied to each entry in turn, stopping at the first exception. */
  function UpdateEach(d: Disk, srv: Remote.Server, lib: Library, entries: seq<Path>): (e: Effect)
    requires forall e :: e in entries ==> |e| >= 1
    decreases |entries|
  {
    if |entries| == 0 then Effect(d, None)
    else
      var first := UpdateEffect(d, srv, lib, entries[0], true);
      if first.raised.Some? then first else UpdateEach(first.disk, srv, lib, entries[1..])
  }

  /** Unfolding `UpdateEach` at position `i` of `entries`. */
  lemma UpdateEachAt(d: Disk, srv: Remote.Server, lib: Library, entries: seq<Path>, i: nat)
    requires i < |entries| && forall e :: e in entries ==> |e| >= 1
    ensures var first := UpdateEffect(d, srv, lib, entries[i], true);
            UpdateEach(d, srv, lib, entries[i..])
              == if first.raised.Some? then first else UpdateEach(first.disk, srv, lib, entries[i + 1..])
  {
    assert entries[i..][0] == entries[i] && entries[i..][1..] == entries[i + 1..];
  }

  /** Deleting the artifact at `path`: a whole tree for a directory, one file, or nothing. */
  function DeleteArtifact(d: Disk, path: Path, denied: set<Path>): (r: Result<Disk, Error>)
    ensures r.Ok? ==> r.value == d - Subtree(d, path) || r.value == d - {path}
  {
    if path in d && d[path].Dir? then RemoveTree(d, path, denied)
    else if path in d then RemoveFile(d, path, denied)
    else Ok(d)
  }

  /**
   * `remove(*path)` without its lock. The artifact and the sidecar are
   * deleted in one `try`: when deleting the artifact fails, the sidecar is
   * left and the error is only printed.
   */
  function RemoveEffect(d: Disk, path: Path, denied: set<Path>): (r: Removal)
    requires |path| >= 1 && WellNamed(path)
    ensures Valid(d) ==> Valid(r.disk)
  {
    var sidecar := Sidecar(path);
    if sidecar !in d then Removal(d, Some(FileNotFoundError), None)
    else
      match DeleteArtifact(d, path, denied)
      case Err(err) => Removal(d, None, Some(err))
      case Ok(d1) =>
        match RemoveFile(d1, sidecar, denied)
        case Err(err) => Removal(d1, None, Some(err))
        case Ok(d2) => Removal(d2, None, None)
  }

  /** Every lock registered before is still registered, to the same key. */
  predicate LocksKept(before: map<Path, nat>, after: map<Path, nat>) {
    && before.Keys <= after.Keys
    && forall k :: k in before ==> after[k] == before[k]
  }

  /** The lock for `key` was taken: it is registered and no other registration changed. */
  predicate LockTaken(before: map<Path, nat>, after: map<Path, nat>, key: Path) {
    && after.Keys == before.Keys + {key}
    && forall k :: k in before ==> after[k] == before[k]
  }

  // ---------------------------------------------------------------------------
  // The cache object
  // ---------------------------------------------------------------------------

  class LocalFiles {
    /** the contents of the cache directory, relative to it */
    var disk: Disk
    /** `serverfiles_dir`, as the names leading to it from the file-system root */
    const root: Path
    /** `serverfiles`: the server this cache mirrors */
    const server: Remote.Server
    /** the library code the source calls */
    const lib: Library
    /** `_get_lock`: the process-wide lock registry, keyed by absolute path */
    const locks: Locks.LockRegistry<Path>

    ghost predicate Valid()
      reads this, locks
    {
      FileSystem.Valid(disk) && WellNamed(root) && ArchivesAreTrees(lib) && locks.Valid()
    }

    /** `LocalFiles(path, serverfiles)`: the cache directory exists and holds `existing`. */
    constructor (root: Path, server: Remote.Server, lib: Library, locks: Locks.LockRegistry<Path>, existing: Disk)
      requires FileSystem.Valid(existing) && WellNamed(root) && ArchivesAreTrees(lib) && locks.Valid()
      ensures Valid()
      ensures this.root == root && this.server == server && this.locks == locks && disk == existing
    {
      this.root := root;
      this.server := server;
      this.lib := lib;
      this.locks := locks;
      disk := existing;
    }

    /** `localpath(*path)`: the absolute location of `path`, from which `path` can be read back. */
    function Localpath(path: Path): (r: Path)
      requires WellNamed(path)
      ensures |r| == |root| + |path| && r[..|root|] == root && r[|root|..] == path
    {
      root + path
    }

    /** Two paths of the cache share a local location only when they are the same path. */
    lemma LocalpathInjective(p: Path, q: Path)
      requires WellNamed(p) && WellNamed(q)
      ensures Localpath(p) == Localpath(q) <==> p == q
    {
      if Localpath(p) == Localpath(q) {
        assert p == Localpath(p)[|root|..];
      }
    }

    /**
     * `_lock_file(*path)` up to `acquire`: the registry's lock for the local
     * location of `path`, created on first use.
     */
    method LockFile(path: Path) returns (lock: nat)
      requires Valid() && WellNamed(path)
      modifies locks
      ensures Valid()
      ensures Localpath(path) in locks.handles && lock == locks.handles[Localpath(path)]
      ensures LockTaken(old(locks.handles), locks.handles, Localpath(path))
    {
      lock := locks.GetLock(Localpath(path));
    }

    /**
     * What the `@_locked` operations rely on: operations on two paths, whatever
     * runs in between, take the same lock exactly when the paths are equal.
     */
    method SharedLock(p: Path, q: Path) returns (lp: nat, lq: nat)
      requires Valid() && WellNamed(p) && WellNamed(q)
      modifies locks
      ensures Valid()
      ensures lp == lq <==> p == q
    {
      lp := LockFile(p);
      lq := LockFile(q);
      LocalpathInjective(p, q);
    }

    /** The tar branch of `download`, in place. */
    method ExtractTarInPlace(target: Path, blob: Bytes) returns (raised: Option<Error>)
      requires |target| >= 1
      modifies this
      ensures Effect(disk, raised) == ExtractTar(old(disk), lib, target, blob)
    {
      var tree := lib.untar(blob);
      if tree.None? {
        return Some(ArchiveError);
      }
      disk := MakeDir(disk, target);
      var extracted := Extract(disk, target, tree.value);
      if extracted.Err? {
        return Some(extracted.error);
      }
      disk := extracted.value;
      raised := RemoveTemp(target);
    }

    /** The `gz`/`bz2` branch of `download`, in place. */
    method DecompressInPlace(target: Path, decompressed: Option<Bytes>) returns (raised: Option<Error>)
      requires |target| >= 1
      modifies this
      ensures Effect(disk, raised) == Decompress(old(disk), target, decompressed)
    {
      var truncated := WriteFile(disk, target, []);
      if truncated.Err? {
        return Some(truncated.error);
      }
      disk := truncated.value;
      if decompressed.None? {
        return Some(ArchiveError);
      }
      disk := disk[target := File(decompressed.value)];
      raised := RemoveTemp(target);
    }

    /** `os.remove(target + ".tmp")`. */
    method RemoveTemp(target: Path) returns (raised: Option<Error>)
      requires |target| >= 1
      modifies this
      ensures Effect(disk, raised) == DeleteTemp(old(disk), target)
    {
      var removed := RemoveFile(disk, TempOf(target), {});
      if removed.Err? {
        return Some(removed.error);
      }
      disk := removed.value;
      return None;
    }

    /** The extraction branch of `download`, in place: the decoder is chosen by `codec`. */
    method MaterializeInPlace(target: Path, codec: Codec, blob: Bytes) returns (raised: Option<Error>)
      requires |target| >= 1
      modifies this
      ensures Effect(disk, raised) == Materialize(old(disk), lib, target, codec, blob)
    {
      match codec {
        case TarGz =>
          raised := ExtractTarInPlace(target, blob);
        case TarBz2 =>
          raised := ExtractTarInPlace(target, blob);
        case Gz =>
          raised := DecompressInPlace(target, Decode(lib, Gz, blob));
        case Bz2 =>
          raised := DecompressInPlace(target, Decode(lib, Bz2, blob));
        case Unknown =>
          raised := Some(UnboundLocalError);
      }
    }

    /** `download.unwrapped`: the steps of `download`, without taking the lock. */
    method DownloadUnwrapped(path: Path, extract: bool) returns (raised: Option<Error>)
      requires Valid() && WellNamed(path)
      modifies this
      ensures Effect(disk, raised) == DownloadEffect(old(disk), server, lib, path, extract)
      ensures Valid()
    {
      var info := Remote.Info(server, lib, path);
      if info.Err? {
        return Some(info.error);
      }
      var unpack := extract && "compression" in info.value;
      var sent := Transfer(disk, server, lib, path, info.value, if unpack then TempOf(path) else path);
      disk := sent.disk;
      if sent.raised.Some? || !unpack {
        return sent.raised;
      }
      // the temporary file holds the payload just fetched
      raised := MaterializeInPlace(path, CodecOf(info.value["compression"]), Remote.Fetch(server, path).value);
    }

    /** `download(*path, extract=extract)`: the steps of `download` under the lock for `path`. */
    method Download(path: Path, extract: bool) returns (raised: Option<Error>)
      requires Valid() && WellNamed(path)
      modifies this, locks
      ensures Valid()
      ensures Effect(disk, raised) == DownloadEffect(old(disk), server, lib, path, extract)
      ensures LockTaken(old(locks.handles), locks.handles, Localpath(path))
    {
      var _ := LockFile(path);
      raised := DownloadUnwrapped(path, extract);
    }

    /**
     * `localpath_download(*path)`: under the lock for `path`, download only
     * when nothing exists at the local path, then return that path.
     */
    method LocalpathDownload(path: Path, extract: bool) returns (r: Result<Path, Error>)
      requires Valid() && WellNamed(path)
      modifies this, locks
      ensures Valid()
      ensures Exists(old(disk), path) ==> disk == old(disk) && r == Ok(Localpath(path))
      ensures !Exists(old(disk), path) ==>
                var e := DownloadEffect(old(disk), server, lib, path, extract);
                disk == e.disk && r == (if e.raised.Some? then Err(e.raised.value) else Ok(Localpath(path)))
      ensures LockTaken(old(locks.handles), locks.handles, Localpath(path))
    {
      var _ := LockFile(path);
      var pathname := Localpath(path);
      if !Exists(disk, path) {
        var raised := DownloadUnwrapped(path, extract);
        if raised.Some? {
          return Err(raised.value);
        }
      }
      return Ok(pathname);
    }

    /**
     * `listfiles(*path)`: walks the files below `path` in whatever order the
     * file system yields them and reports each entry whose artifact exists
     * and whose sidecar parses. Files named `.info`, `..info` and `...info`
     * are not taken for sidecars (see `EntryAsWritten` for what the source
     * does with them).
     */
    method ListFiles(path: Path) returns (files: seq<Path>)
      requires Valid() && WellNamed(path)
      ensures forall e :: e in files <==> Listed(disk, lib, path, e)
      ensures Distinct(files)
    {
      var pending := set q | q in disk && |q| > |path| && q[..|path|] == path && disk[q].File?;
      files := [];
      while pending != {}
        invariant forall q :: q in pending ==> q in disk && |q| > |path| && q[..|path|] == path && disk[q].File?
        invariant forall e :: e in files <==> Listed(disk, lib, path, e) && Sidecar(e) !in pending
        invariant Distinct(files)
        decreases pending
      {
        var q :| q in pending;
        ListingStep(disk, lib, path, pending, q, files);
        pending := pending - {q};
        var name := q[|q| - 1];
        if EndsWith(name, ".info") && |name| > 5 && StemOf(q) in disk && lib.load(disk[q].data).Some? {
          var stem := StemOf(q);
          assert stem[..|path|] == q[..|path|];
          RelativeSplit(path, stem);
          var rel := Paths.SplitPath(Join(stem[|path|..], "/"));
          files := files + [path + rel];
        }
      }
    }

    /** `update(*path)`: download when the server has a newer version (or freshness is unknown). */
    method Update(path: Path, extract: bool) returns (raised: Option<Error>)
      requires Valid() && WellNamed(path) && |path| >= 1
      modifies this, locks
      ensures Valid()
      ensures Effect(disk, raised) == UpdateEffect(old(disk), server, lib, path, extract)
      ensures LocksKept(old(locks.handles), locks.handles)
      ensures locks.handles.Keys <= old(locks.handles).Keys + {Localpath(path)}
    {
      var stale := NeedsUpdate(disk, server, lib, path);
      if stale.Err? {
        return Some(stale.error);
      }
      if stale.value {
        raised := Download(path, extract);
      } else {
        raised := None;
      }
    }

    /** `update_all(*path)`: `update` on every entry `listfiles(*path)` reports. */
    method UpdateAll(path: Path) returns (raised: Option<Error>, ghost listed: seq<Path>)
      requires Valid() && WellNamed(path)
      modifies this, locks
      ensures Valid()
      ensures ListingOf(old(disk), lib, path, listed)
      ensures Effect(disk, raised) == UpdateEach(old(disk), server, lib, listed)
      ensures LocksKept(old(locks.handles), locks.handles)
    {
      var files := ListFiles(path);
      listed := files;
      assert forall e :: e in files ==> WellNamed(e) && |e| >= 1 by {
        forall e | e in files ensures WellNamed(e) && |e| >= 1 {
          assert Listed(disk, lib, path, e);
        }
      }
      for i := 0 to |files|
        invariant Valid()
        invariant UpdateEach(old(disk), server, lib, files) == UpdateEach(disk, server, lib, files[i..])
        invariant LocksKept(old(locks.handles), locks.handles)
      {
        UpdateEachAt(disk, server, lib, files, i);
        raised := Update(files[i], true);
        if raised.Some? {
          return;
        }
      }
      assert files[|files|..] == [];
      raised := None;
    }

    /**
     * `remove(*path)`: under the lock for `path`, raise `FileNotFoundError`
     * when the sidecar is missing; otherwise delete the artifact, then the
     * sidecar, printing instead of raising an `OSError`.
     */
    method Remove(path: Path, denied: set<Path>) returns (raised: Option<Error>, logged: Option<Error>)
      requires Valid() && |path| >= 1 && WellNamed(path)
      modifies this, locks
      ensures Valid()
      ensures Removal(disk, raised, logged) == RemoveEffect(old(disk), path, denied)
      ensures LockTaken(old(locks.handles), locks.handles, Localpath(path))
    {
      var _ := LockFile(path);
      var sidecar := Sidecar(path);
      if sidecar !in disk {
        return Some(FileNotFoundError), None;
      }
      var deleted: Result<Disk, Error>;
      if path in disk && disk[path].Dir? {
        deleted := RemoveTree(disk, path, denied);
      } else if path in disk {
        deleted := RemoveFile(disk, path, denied);
      } else {
        deleted := Ok(disk);
      }
      if deleted.Err? {
        return None, Some(deleted.error);
      }
      disk := deleted.value;
      var cleared := RemoveFile(disk, sidecar, denied);
      if cleared.Err? {
        return None, Some(cleared.error);
      }
      disk := cleared.value;
      return None, None;
    }
  }
}
