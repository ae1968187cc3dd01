/**
 * What a download, an update and a removal do to the cache, stated over the
 * effect functions of `Cache` and therefore over the methods of
 * `LocalFiles`, whose new state those functions give.
 */
module CacheProperties {
  import opened Results
  import opened Formats
  import opened FileSystem
  import opened Libraries
  import Remote
  import opened Cache

  /**
   * The disk a successful download of `path` starts from can hold it: it is
   * consistent, nothing on the way to `path` is a file, and neither the
   * temporary file nor the sidecar is a directory.
   */
  predicate Placeable(d: Disk, path: Path) {
    && Valid(d) && WellNamed(path) && |path| >= 1 && !BelowFile(d, path)
    && !(Parent(path) in d && d[Parent(path)].File?)
    && !(TempOf(path) in d && d[TempOf(path)].Dir?)
    && !(Sidecar(path) in d && d[Sidecar(path)].Dir?)
  }

  /** Creating the parent directories keeps every path of the entry as it was, and makes the parent a directory. */
  lemma ParentsReady(d: Disk, path: Path)
    requires Placeable(d, path)
    ensures var d1 := MakeDirs(d, Parent(path));
            && IsDir(d1, Parent(path))
            && (forall q :: q in d && |q| == |path| ==> q in d1 && d1[q] == d[q])
            && (forall q :: q in d1 && |q| == |path| ==> q in d)
  {
    var p := Parent(path);
    assert !BelowFile(d, p) by {
      forall k | 0 < k < |p| ensures p[..k] == path[..k] { }
    }
  }

  /**
   * On a disk that can hold the entry, the transfer succeeds exactly when
   * the fetch does, and leaves the payload in `dest` and the info in the
   * sidecar.
   */
  lemma TransferPlaces(d: Disk, srv: Remote.Server, lib: Library, path: Path, info: Info, dest: Path)
    requires Placeable(d, path)
    requires dest == TempOf(path) || (dest == path && !(path in d && d[path].Dir?))
    ensures var e := Transfer(d, srv, lib, path, info, dest);
            && (e.raised == None <==> Remote.Fetch(srv, path).Ok?)
            && (e.raised == None ==>
                  && dest in e.disk && e.disk[dest] == File(Remote.Fetch(srv, path).value)
                  && Sidecar(path) in e.disk && e.disk[Sidecar(path)] == File(lib.dump(info))
                  && IsDir(e.disk, Parent(path)))
  {
    ParentsReady(d, path);
    Siblings(path);
    var d1 := MakeDirs(d, Parent(path));
    assert |dest| == |path| && |Sidecar(path)| == |path|;
    assert Parent(dest) == Parent(path) && Parent(Sidecar(path)) == Parent(path);
    assert !(dest in d1 && d1[dest].Dir?);
    assert !(Sidecar(path) in d1 && d1[Sidecar(path)].Dir?);
    StorePlaces(d1, srv, lib, path, info, dest);
  }

  /** In a directory that can hold them, the writes of a transfer succeed exactly when the fetch does. */
  lemma StorePlaces(d: Disk, srv: Remote.Server, lib: Library, path: Path, info: Info, dest: Path)
    requires |path| >= 1 && (dest == path || dest == TempOf(path))
    requires Parent(dest) == Parent(path) && Parent(Sidecar(path)) == Parent(path)
    requires IsDir(d, Parent(path)) && !(dest in d && d[dest].Dir?) && !(Sidecar(path) in d && d[Sidecar(path)].Dir?)
    ensures var e := Store(d, srv, lib, path, info, dest);
            && (e.raised == None <==> Remote.Fetch(srv, path).Ok?)
            && (e.raised == None ==> IsDir(e.disk, Parent(path)))
  {
    match Remote.Fetch(srv, path)
    case Err(_) =>
    case Ok(payload) =>
      WritesPlace(d, Parent(path), dest, payload, Sidecar(path), lib.dump(info));
  }

  /** Two file writes into one existing directory both succeed and keep it a directory. */
  lemma WritesPlace(d: Disk, dir: Path, p: Path, a: Bytes, q: Path, b: Bytes)
    requires |p| >= 1 && |q| >= 1 && Parent(p) == dir && Parent(q) == dir
    requires IsDir(d, dir) && !(p in d && d[p].Dir?) && !(q in d && d[q].Dir?)
    ensures WriteFile(d, p, a).Ok?
    ensures var d2 := WriteFile(d, p, a).value;
            && WriteFile(d2, q, b).Ok? && IsDir(WriteFile(d2, q, b).value, dir)
  {
    assert |dir| < |p| && |dir| < |q|;
    var d2 := d[p := File(a)];
    assert IsDir(d2, dir);
  }

  /**
   * Without extraction the payload lands at the artifact's own path and the
   * server's info in its sidecar.
   */
  lemma DownloadWithoutExtraction(d: Disk, srv: Remote.Server, lib: Library, path: Path, extract: bool)
    requires Placeable(d, path) && !(path in d && d[path].Dir?)
    requires Remote.Info(srv, lib, path).Ok? && Remote.Fetch(srv, path).Ok?
    requires !(extract && "compression" in Remote.Info(srv, lib, path).value)
    ensures var e := DownloadEffect(d, srv, lib, path, extract);
            && e.raised == None
            && path in e.disk && e.disk[path] == File(Remote.Fetch(srv, path).value)
            && Sidecar(path) in e.disk && e.disk[Sidecar(path)] == File(lib.dump(Remote.Info(srv, lib, path).value))
  {
    TransferPlaces(d, srv, lib, path, Remote.Info(srv, lib, path).value, path);
  }

  /** Decompressing a present temporary file into a target that is not a directory succeeds. */
  lemma DecompressPlaces(d: Disk, target: Path, data: Bytes)
    requires |target| >= 1 && IsDir(d, Parent(target)) && !(target in d && d[target].Dir?)
    requires TempOf(target) in d && d[TempOf(target)].File?
    ensures var e := Decompress(d, target, Some(data));
            e.raised == None && target in e.disk && e.disk[target] == File(data) && TempOf(target) !in e.disk
  {
    Siblings(target);
  }

  /** With extraction, a download whose transfer succeeded is that transfer followed by the extraction. */
  lemma ExtractionFollowsTransfer(d: Disk, srv: Remote.Server, lib: Library, path: Path)
    requires |path| >= 1 && Remote.Info(srv, lib, path).Ok?
    requires "compression" in Remote.Info(srv, lib, path).value
    requires Transfer(d, srv, lib, path, Remote.Info(srv, lib, path).value, TempOf(path)).raised == None
    ensures var info := Remote.Info(srv, lib, path).value;
            var sent := Transfer(d, srv, lib, path, info, TempOf(path));
            DownloadEffect(d, srv, lib, path, true)
              == Materialize(sent.disk, lib, path, CodecOf(info["compression"]), Remote.Fetch(srv, path).value)
  {
  }

  /** The transfer to the temporary file leaves the artifact's own path as it was. */
  lemma TransferKeepsArtifact(d: Disk, srv: Remote.Server, lib: Library, path: Path, info: Info)
    requires |path| >= 1
    ensures var sent := Transfer(d, srv, lib, path, info, TempOf(path)).disk;
            (path in sent <==> path in d) && (path in d ==> sent[path] == d[path])
  {
    Siblings(path);
    TransferFrame(d, srv, lib, path, info, TempOf(path));
  }

  /** The transfer leaves every path longer than the artifact's as it was. */
  lemma TransferKeepsBelow(d: Disk, srv: Remote.Server, lib: Library, path: Path, info: Info)
    requires |path| >= 1
    ensures var sent := Transfer(d, srv, lib, path, info, TempOf(path)).disk;
            forall q :: |q| > |path| ==> (q in sent <==> q in d) && (q in d ==> sent[q] == d[q])
  {
    TransferFrame(d, srv, lib, path, info, TempOf(path));
  }

  /** The extraction leaves the sidecar as the transfer wrote it. */
  lemma ExtractionKeepsSidecar(d: Disk, lib: Library, path: Path, c: Codec, blob: Bytes)
    requires |path| >= 1 && Sidecar(path) in d
    ensures var e := Materialize(d, lib, path, c, blob);
            Sidecar(path) in e.disk && e.disk[Sidecar(path)] == d[Sidecar(path)]
  {
    Siblings(path);
    MaterializeFrame(d, lib, path, c, blob);
  }

  /**
   * With `gz` or `bz2` compression the decompressed payload lands at the
   * artifact's path, the temporary file is gone, and the sidecar holds the
   * server's info.
   */
  lemma DownloadDecompressed(d: Disk, srv: Remote.Server, lib: Library, path: Path, data: Bytes)
    requires Placeable(d, path) && !(path in d && d[path].Dir?)
    requires Remote.Info(srv, lib, path).Ok? && Remote.Fetch(srv, path).Ok?
    requires "compression" in Remote.Info(srv, lib, path).value
    requires CodecOf(Remote.Info(srv, lib, path).value["compression"]) in {Gz, Bz2}
    requires Decode(lib, CodecOf(Remote.Info(srv, lib, path).value["compression"]), Remote.Fetch(srv, path).value) == Some(data)
    ensures var e := DownloadEffect(d, srv, lib, path, true);
            && e.raised == None
            && path in e.disk && e.disk[path] == File(data)
            && TempOf(path) !in e.disk
            && Sidecar(path) in e.disk && e.disk[Sidecar(path)] == File(lib.dump(Remote.Info(srv, lib, path).value))
  {
    var info := Remote.Info(srv, lib, path).value;
    var payload := Remote.Fetch(srv, path).value;
    TransferPlaces(d, srv, lib, path, info, TempOf(path));
    TransferKeepsArtifact(d, srv, lib, path, info);
    var sent := Transfer(d, srv, lib, path, info, TempOf(path));
    ExtractionFollowsTransfer(d, srv, lib, path);
    var codec := CodecOf(info["compression"]);
    ExtractionKeepsSidecar(sent.disk, lib, path, codec, payload);
    DecompressPlaces(sent.disk, path, data);
    var m := Materialize(sent.disk, lib, path, codec, payload);
    assert m == Decompress(sent.disk, path, Some(data));
    assert DownloadEffect(d, srv, lib, path, true) == m;
  }

  /**
   * Extracting a tree into a target that is a directory, where no member
   * changes between file and directory, succeeds and places every member.
   */
  lemma ExtractTarPlaces(d: Disk, lib: Library, target: Path, blob: Bytes, tree: Disk)
    requires |target| >= 1 && IsDir(d, Parent(target)) && !(target in d && d[target].File?)
    requires TempOf(target) in d && d[TempOf(target)].File?
    requires lib.untar(blob) == Some(tree) && Valid(tree)
    requires forall rel :: rel in tree && target + rel in d ==> d[target + rel].Dir? == tree[rel].Dir?
    ensures var e := ExtractTar(d, lib, target, blob);
            && e.raised == None
            && IsDir(e.disk, target)
            && (forall rel :: rel in tree ==> target + rel in e.disk && e.disk[target + rel] == tree[rel])
            && TempOf(target) !in e.disk
  {
    var d1 := MakeDir(d, target);
    TargetReady(d, target, tree);
    GraftPlaces(d1, target, tree);
    var g := Graft(d1, target, tree);
    assert ExtractTar(d, lib, target, blob) == DeleteTemp(g, target);
  }

  /** Making the target directory keeps the temporary file and the kinds of the paths below the target. */
  lemma TargetReady(d: Disk, target: Path, tree: Disk)
    requires |target| >= 1 && IsDir(d, Parent(target)) && !(target in d && d[target].File?)
    requires TempOf(target) in d && d[TempOf(target)].File? && Valid(tree)
    requires forall rel :: rel in tree && target + rel in d ==> d[target + rel].Dir? == tree[rel].Dir?
    ensures var d1 := MakeDir(d, target);
            && IsDir(d1, target)
            && TempOf(target) in d1 && d1[TempOf(target)].File?
            && forall rel :: rel in tree && target + rel in d1 ==> d1[target + rel].Dir? == tree[rel].Dir?
  {
    Siblings(target);
    var d1 := MakeDir(d, target);
    forall rel | rel in tree && target + rel in d1
      ensures d1[target + rel].Dir? == tree[rel].Dir?
    {
      assert |rel| >= 1;
      assert target + rel != target;
    }
  }

  /**
   * Grafting a tree of proper names into a directory where no member
   * changes between file and directory succeeds, keeps the directory and
   * keeps the temporary file beside it.
   */
  lemma GraftPlaces(d: Disk, target: Path, tree: Disk)
    requires |target| >= 1 && IsDir(d, target) && Valid(tree)
    requires TempOf(target) in d && d[TempOf(target)].File?
    requires forall rel :: rel in tree && target + rel in d ==> d[target + rel].Dir? == tree[rel].Dir?
    ensures Extract(d, target, tree) == Ok(Graft(d, target, tree))
    ensures var g := Graft(d, target, tree);
            && IsDir(g, target)
            && TempOf(target) in g && g[TempOf(target)] == d[TempOf(target)]
            && forall rel :: rel in tree ==> target + rel != TempOf(target)
  {
    Siblings(target);
    assert forall rel :: rel in tree ==> !Clashes(d, target, rel, tree[rel]);
    var g := Graft(d, target, tree);
    assert target in g && g[target] == Dir by {
      assert forall rel :: rel in tree ==> |target + rel| > |target|;
    }
    forall rel | rel in tree ensures target + rel != TempOf(target) {
      assert IsPrefix(target, target + rel);
    }
  }

  /**
   * With `tar.gz` or `tar.bz2` compression and an archive whose members do
   * not clash with what is already on disk, the artifact becomes a directory
   * holding the archive's members, the temporary file is gone, and the
   * sidecar holds the server's info.
   */
  lemma DownloadExtractedTree(d: Disk, srv: Remote.Server, lib: Library, path: Path, tree: Disk)
    requires Placeable(d, path) && !(path in d && d[path].File?)
    requires Remote.Info(srv, lib, path).Ok? && Remote.Fetch(srv, path).Ok?
    requires "compression" in Remote.Info(srv, lib, path).value
    requires CodecOf(Remote.Info(srv, lib, path).value["compression"]) in {TarGz, TarBz2}
    requires lib.untar(Remote.Fetch(srv, path).value) == Some(tree) && Valid(tree)
    requires forall rel :: rel in tree && path + rel in d ==> d[path + rel].Dir? == tree[rel].Dir?
    ensures var e := DownloadEffect(d, srv, lib, path, true);
            && e.raised == None
            && IsDir(e.disk, path)
            && (forall rel :: rel in tree ==> path + rel in e.disk && e.disk[path + rel] == tree[rel])
            && TempOf(path) !in e.disk
            && Sidecar(path) in e.disk && e.disk[Sidecar(path)] == File(lib.dump(Remote.Info(srv, lib, path).value))
  {
    var info := Remote.Info(srv, lib, path).value;
    var payload := Remote.Fetch(srv, path).value;
    TransferPlaces(d, srv, lib, path, info, TempOf(path));
    TransferKeepsArtifact(d, srv, lib, path, info);
    var sent := Transfer(d, srv, lib, path, info, TempOf(path));
    ExtractionFollowsTransfer(d, srv, lib, path);
    ExtractionKeepsSidecar(sent.disk, lib, path, CodecOf(info["compression"]), payload);
    TransferKeepsBelow(d, srv, lib, path, info);
    forall rel | rel in tree && path + rel in sent.disk
      ensures sent.disk[path + rel].Dir? == tree[rel].Dir?
    {
      assert |rel| >= 1;
    }
    ExtractTarPlaces(sent.disk, lib, path, payload, tree);
    var m := Materialize(sent.disk, lib, path, CodecOf(info["compression"]), payload);
    assert m == ExtractTar(sent.disk, lib, path, payload);
    assert DownloadEffect(d, srv, lib, path, true) == m;
  }

  /**
   * When the server has no valid info or the fetch fails, the download
   * raises: `ValueError` from an info that does not parse, or else the
   * fetch's own error (`FileNotFoundError` for a 404, `OSError` for another
   * status, `TypeError` or `ValueError` for the content length). It writes
   * neither the payload nor the sidecar: at most the missing parent
   * directories appear.
   */
  lemma FailedFetchWritesNothing(d: Disk, srv: Remote.Server, lib: Library, path: Path, extract: bool)
    requires |path| >= 1
    requires Remote.Info(srv, lib, path).Err? || Remote.Fetch(srv, path).Err?
    ensures var e := DownloadEffect(d, srv, lib, path, extract);
            && (Remote.Info(srv, lib, path).Err? ==> e.raised == Some(ValueError))
            && (Remote.Info(srv, lib, path).Ok? ==> e.raised == Some(Remote.Fetch(srv, path).error))
            && forall q :: |q| >= |path| ==> (q in e.disk <==> q in d) && (q in d ==> e.disk[q] == d[q])
  {
  }

  /**
   * A `compression` value `download` has no decoder for raises
   * `UnboundLocalError` after the payload is in the temporary file and the
   * sidecar is written; both stay.
   */
  lemma UnknownCompressionKeepsTemp(d: Disk, srv: Remote.Server, lib: Library, path: Path)
    requires Placeable(d, path)
    requires Remote.Info(srv, lib, path).Ok? && Remote.Fetch(srv, path).Ok?
    requires "compression" in Remote.Info(srv, lib, path).value
    requires CodecOf(Remote.Info(srv, lib, path).value["compression"]) == Unknown
    ensures var e := DownloadEffect(d, srv, lib, path, true);
            && e.raised == Some(UnboundLocalError)
            && TempOf(path) in e.disk && e.disk[TempOf(path)] == File(Remote.Fetch(srv, path).value)
            && Sidecar(path) in e.disk && e.disk[Sidecar(path)] == File(lib.dump(Remote.Info(srv, lib, path).value))
  {
    TransferPlaces(d, srv, lib, path, Remote.Info(srv, lib, path).value, TempOf(path));
  }

  /**
   * Sidecar round trip: once a download completes, `LocalFiles.info` reads
   * back exactly the info the server gave, provided the JSON library's
   * `load` inverts its `dump`.
   */
  lemma DownloadThenInfo(d: Disk, srv: Remote.Server, lib: Library, path: Path, extract: bool)
    requires JsonRoundTrips(lib) && |path| >= 1
    requires DownloadEffect(d, srv, lib, path, extract).raised == None
    ensures LocalInfo(DownloadEffect(d, srv, lib, path, extract).disk, lib, path) == Remote.Info(srv, lib, path)
  {
    var e := DownloadEffect(d, srv, lib, path, extract);
    var info := Remote.Info(srv, lib, path).value;
    var unpack := extract && "compression" in info;
    var dest := if unpack then TempOf(path) else path;
    var sent := Transfer(d, srv, lib, path, info, dest);
    assert sent.raised == None;
    assert Sidecar(path) in sent.disk && sent.disk[Sidecar(path)] == File(lib.dump(info));
    if unpack {
      var codec, blob := CodecOf(info["compression"]), Remote.Fetch(srv, path).value;
      assert e == Materialize(sent.disk, lib, path, codec, blob);
      ExtractionKeepsSidecar(sent.disk, lib, path, codec, blob);
    } else {
      assert e == sent;
    }
    assert e.disk[Sidecar(path)] == File(lib.dump(info));
    assert lib.load(lib.dump(info)) == Some(info);
  }

  /** Right after a download completes, `needs_update` answers `False` whenever the server's timestamp parses. */
  lemma DownloadThenUpToDate(d: Disk, srv: Remote.Server, lib: Library, path: Path, extract: bool)
    requires JsonRoundTrips(lib) && |path| >= 1
    requires DownloadEffect(d, srv, lib, path, extract).raised == None
    requires RemoteStamp(srv, lib, path).Ok?
    ensures NeedsUpdate(DownloadEffect(d, srv, lib, path, extract).disk, srv, lib, path) == Ok(false)
  {
    var after := DownloadEffect(d, srv, lib, path, extract).disk;
    DownloadThenInfo(d, srv, lib, path, extract);
    assert LocalStamp(after, lib, path) == RemoteStamp(srv, lib, path);
  }

  /**
   * `remove` only deletes: it raises exactly when the sidecar is missing,
   * and then changes nothing; it never deletes a path other than the
   * artifact, what lies below it, and the sidecar; and whenever deleting
   * fails, the sidecar is still there.
   */
  lemma RemoveOnlyDeletes(d: Disk, path: Path, denied: set<Path>)
    requires |path| >= 1 && WellNamed(path)
    ensures var r := RemoveEffect(d, path, denied);
            && (r.raised.Some? <==> Sidecar(path) !in d)
            && (r.raised.Some? ==> r.disk == d && r.raised == Some(FileNotFoundError))
            && (forall q :: q in r.disk ==> q in d && r.disk[q] == d[q])
            && (forall q :: q in d && q != Sidecar(path) && !IsPrefix(path, q) ==> q in r.disk)
            && (r.logged.Some? ==> Sidecar(path) in r.disk)
  {
    Siblings(path);
    var sidecar := Sidecar(path);
    if sidecar in d {
      assert !IsPrefix(path, sidecar) by { SiblingsNotBelow(path); }
      var del := DeleteArtifact(d, path, denied);
      if del.Err? {
        assert RemoveEffect(d, path, denied) == Removal(d, None, Some(del.error));
      } else {
        var d1 := del.value;
        assert sidecar in d1 && d1[sidecar] == d[sidecar];
        assert forall q :: q in d1 ==> q in d && d1[q] == d[q];
        assert forall q :: q in d && q != sidecar && !IsPrefix(path, q) ==> q in d1;
        var rm := RemoveFile(d1, sidecar, denied);
        if rm.Err? {
          assert RemoveEffect(d, path, denied) == Removal(d1, None, Some(rm.error));
        } else {
          assert RemoveEffect(d, path, denied) == Removal(rm.value, None, None);
        }
      }
    }
  }

  /** On a consistent disk, the paths sharing a prefix with a file or a missing path are that path alone. */
  lemma SubtreeOfNonDirectory(d: Disk, path: Path)
    requires Valid(d) && |path| >= 1 && !(path in d && d[path].Dir?)
    ensures Subtree(d, path) == if path in d then {path} else {}
  {
    forall q | q in d && IsPrefix(path, q) && q != path ensures false {
      AncestorsAreDirs(d, q, |path|);
    }
  }

  /**
   * When nothing in the way is protected, `remove` deletes the artifact with
   * everything below it and the sidecar, and nothing else.
   */
  lemma RemoveDeletesEntry(d: Disk, path: Path, denied: set<Path>)
    requires Valid(d) && |path| >= 1 && WellNamed(path)
    requires Sidecar(path) in d && d[Sidecar(path)].File? && Sidecar(path) !in denied
    requires Subtree(d, path) !! denied
    ensures RemoveEffect(d, path, denied) == Removal(d - Subtree(d, path) - {Sidecar(path)}, None, None)
  {
    Siblings(path);
    if !(path in d && d[path].Dir?) {
      SubtreeOfNonDirectory(d, path);
    }
    assert Sidecar(path) !in Subtree(d, path);
  }

  /** After a complete removal, `needs_update` answers `True`: the sidecar is gone. */
  lemma RemoveThenNeedsUpdate(d: Disk, srv: Remote.Server, lib: Library, path: Path, denied: set<Path>)
    requires Valid(d) && |path| >= 1 && WellNamed(path)
    requires RemoveEffect(d, path, denied) == Removal(RemoveEffect(d, path, denied).disk, None, None)
    ensures NeedsUpdate(RemoveEffect(d, path, denied).disk, srv, lib, path) == Ok(true)
  {
    var r := RemoveEffect(d, path, denied).disk;
    var sidecar := Sidecar(path);
    RemoveOnlyDeletes(d, path, denied);
    assert sidecar !in r;
    assert !BelowFile(r, sidecar) by {
      forall k | 0 < k < |sidecar| && sidecar[..k] in r ensures !r[sidecar[..k]].File? {
        AncestorsAreDirs(d, sidecar, k);
      }
    }
  }
}
