/** `Librarian::Puppet::Source::GitHubTarball::Repo`: a package hosted as
    GitHub tags, with its memoised version list, its vendored archives, its
    unpacked versions and the install step. The filesystem the Ruby code
    touches is the `Disk` object; network answers, the `tar` run and the
    download are inputs of the methods that use them. */
module GitHubTarball {
  import opened Wrappers
  import opened VersionResolver
  import opened TagFetcher
  import opened ArchiveCache
  import opened UnpackCache
  import ByteOrder

  datatype Outcome<+E> = Pass | Fail(error: E)

  /** Where `tar` reads the archive from. */
  datatype ArchiveSource =
    | VendoredArchive(path: string)  // the archive in the vendor cache
    | FileNamed(name: string)        // a file named after the package, in the working directory

  /** The filesystem operations, in the order they happen. */
  datatype Effect =
    | RemoveArchive(file: string)                    // FileUtils.rm of a vendored archive
    | Download(url: string, file: string)            // open(url), written to the vendor cache
    | MakeDir(path: string)                          // mkpath of an unpacked-version directory
    | Extract(archive: ArchiveSource, into: string)  // tar xzf <archive> -C <into>
    | RemoveTree(path: string)                       // rmtree of the install path
    | CopyTree(from: string, to: string)             // cp_r

  /** How the download of a tarball ends. */
  datatype Transfer = Delivered | HttpFailure(reason: string)

  /** How `tar` ends: the top-level entries it leaves behind and, on failure,
      its exit status. */
  datatype TarRun = Extracted(entries: seq<string>) | TarFailed(entries: seq<string>, status: nat)

  datatype InstallError =
    | NoLocalCopy(text: string)                    // local mode without a vendored archive
    | DownloadFailed(text: string)                 // the re-raised OpenURI::HTTPError
    | ExtractionFailed(archive: ArchiveSource, status: nat)  // tar exited non-zero
    | NothingUnpacked(dir: string)                 // `children.first` is nil: cp_r raises

  /** One manifest per version. */
  datatype Manifest = Manifest(source: string, name: string, version: string)

  /** The files a run of archive removals deletes. */
  function Removed(effects: seq<Effect>): set<string> {
    if effects == [] then {}
    else
      var last := effects[|effects| - 1];
      Removed(effects[..|effects| - 1]) + if last.RemoveArchive? then {last.file} else {}
  }

  lemma RemovedAppend(effects: seq<Effect>, f: string)
    ensures Removed(effects + [RemoveArchive(f)]) == Removed(effects) + {f}
  {
    assert (effects + [RemoveArchive(f)])[..|effects|] == effects;
  }

  predicate OnlyRemovals(effects: seq<Effect>) {
    forall i :: 0 <= i < |effects| ==> effects[i].RemoveArchive?
  }

  /** How many downloads a run of effects holds. */
  function Downloads(effects: seq<Effect>): nat {
    if effects == [] then 0
    else Downloads(effects[..|effects| - 1]) + if effects[|effects| - 1].Download? then 1 else 0
  }

  /** How many `tar` runs a run of effects holds. */
  function Extracts(effects: seq<Effect>): nat {
    if effects == [] then 0
    else Extracts(effects[..|effects| - 1]) + if effects[|effects| - 1].Extract? then 1 else 0
  }

  lemma {:induction false} CountsAppend(a: seq<Effect>, b: seq<Effect>)
    ensures Downloads(a + b) == Downloads(a) + Downloads(b)
    ensures Extracts(a + b) == Extracts(a) + Extracts(b)
    decreases |b|
  {
    if b != [] {
      var b' := b[..|b| - 1];
      assert (a + b)[..|a + b| - 1] == a + b';
      CountsAppend(a, b');
    } else {
      assert a + b == a;
    }
  }

  lemma {:induction false} RemovalsCountNothing(effects: seq<Effect>)
    requires OnlyRemovals(effects)
    ensures Downloads(effects) == 0 && Extracts(effects) == 0
  {
    if effects != [] {
      RemovalsCountNothing(effects[..|effects| - 1]);
    }
  }

  /** The part of the filesystem the repo touches. */
  class Disk {
    var vendorDir: bool                    // the vendor-cache directory exists
    var archives: set<string>              // files under the vendor cache
    var unpacked: map<string, seq<string>> // unpacked-version directories and their entries
    var trees: map<string, string>         // install paths and the entry each was copied from
    ghost var log: seq<Effect>

    constructor (vendorDir: bool, archives: set<string>, unpacked: map<string, seq<string>>,
                 trees: map<string, string>)
      requires !vendorDir ==> archives == {} // files live inside the vendor-cache directory
      ensures this.vendorDir == vendorDir && this.archives == archives
      ensures this.unpacked == unpacked && this.trees == trees && log == []
    {
      this.vendorDir := vendorDir;
      this.archives := archives;
      this.unpacked := unpacked;
      this.trees := trees;
      log := [];
    }

    /** `FileUtils.rm` of each of `files`, one at a time, in no particular order. */
    method RemoveEach(files: set<string>)
      modifies this`archives, this`log
      ensures archives == old(archives) - files
      ensures old(log) <= log
      ensures |log| == |old(log)| + |files|
      ensures OnlyRemovals(log[|old(log)|..])
      ensures Removed(log[|old(log)|..]) == files
    {
      var remaining := files;
      ghost var done: seq<Effect> := [];
      ghost var removed: set<string> := {};
      while remaining != {}
        invariant remaining !! removed && remaining + removed == files
        invariant archives == old(archives) - removed
        invariant log == old(log) + done
        invariant |done| == |removed|
        invariant OnlyRemovals(done)
        invariant Removed(done) == removed
        decreases remaining
      {
        var f :| f in remaining;
        archives := archives - {f};
        RemovedAppend(done, f);
        done := done + [RemoveArchive(f)];
        log := log + [RemoveArchive(f)];
        removed := removed + {f};
        remaining := remaining - {f};
      }
      assert log[|old(log)|..] == done;
    }
  }

  class Repo {
    const uri: string                  // source.uri, `owner/repo`
    const name: string                 // the package name
    const local: bool                  // environment.local?
    const token: Option<string>        // ENV['GITHUB_API_TOKEN']
    const vendorCache: string          // environment.vendor_cache
    const cachePath: string            // source.cache_path.join(name)
    const hexdigest: string -> string  // Digest::MD5.hexdigest

    var memo: Option<seq<string>>      // @versions
    ghost var tagRequests: seq<string> // every URL requested from the tags API

    constructor (uri: string, name: string, local: bool, token: Option<string>,
                 vendorCache: string, sourceCachePath: string, hexdigest: string -> string)
      ensures this.uri == uri && this.name == name && this.local == local && this.token == token
      ensures this.vendorCache == vendorCache && this.cachePath == Join(sourceCachePath, name)
      ensures this.hexdigest == hexdigest
      ensures memo == None && tagRequests == []
    {
      this.uri := uri;
      this.name := name;
      this.local := local;
      this.token := token;
      this.vendorCache := vendorCache;
      this.cachePath := Join(sourceCachePath, name);
      this.hexdigest := hexdigest;
      memo := None;
      tagRequests := [];
    }

    // ----- versions and manifests -----

    function TagsPath(): string {
      "/repos/" + uri + "/tags"
    }

    /** `versions`: the memoised list if there is one (an empty list counts),
        otherwise one paginated fetch, whose tag names are resolved and
        remembered. A failed fetch raises and remembers nothing. */
    method Versions(rs: seq<Response>) returns (r: Result<seq<string>, FetchError>)
      modifies this`memo, this`tagRequests
      ensures old(memo).Some? ==> r == Ok(old(memo).value) && memo == old(memo)
                                  && tagRequests == old(tagRequests)
      ensures old(memo).None? ==>
        var run := Paginate(FirstUrl(TagsPath()), token, rs);
        && tagRequests == old(tagRequests) + run.requested
        && (run.outcome.Ok? ==> r == Ok(ResolveVersions(run.outcome.value)) && memo == Some(r.value))
        && (run.outcome.Err? ==> r == Err(run.outcome.error) && memo == None)
    {
      if memo.Some? {
        return Ok(memo.value);
      }
      var run := ApiCall(TagsPath(), token, rs);
      tagRequests := tagRequests + run.requested;
      if run.outcome.Err? {
        return Err(run.outcome.error);
      }
      // `data.nil?` cannot hold: `api_call` returns a list, possibly empty
      var data := run.outcome.value;
      var all := ByteOrder.Reverse(ByteOrder.Sort(StripAll(data)));
      var kept := DeleteIfInvalid(all);
      memo := Some(kept);
      r := Ok(kept);
    }

    /** `manifests`: one manifest per version, in the same order. */
    method Manifests(rs: seq<Response>) returns (r: Result<seq<Manifest>, FetchError>)
      modifies this`memo, this`tagRequests
      ensures old(memo).Some? ==> memo == old(memo) && tagRequests == old(tagRequests)
      ensures old(memo).None? ==>
        var run := Paginate(FirstUrl(TagsPath()), token, rs);
        && tagRequests == old(tagRequests) + run.requested
        && (run.outcome.Ok? ==> memo == Some(ResolveVersions(run.outcome.value)))
        && (run.outcome.Err? ==> r == Err(run.outcome.error) && memo == None)
      ensures r.Ok? <==> memo.Some?
      ensures r.Ok? ==> (|r.value| == |memo.value|
        && forall i :: 0 <= i < |r.value| ==> r.value[i] == Manifest(uri, name, memo.value[i]))
    {
      var vs := Versions(rs);
      if vs.Err? {
        return Err(vs.error);
      }
      var versions := vs.value;
      r := Ok(seq(|versions|, i requires 0 <= i < |versions| => Manifest(uri, name, versions[i])));
    }

    // ----- the archive cache -----

    /** `vendored_path(n, v)`: creates the vendor cache and names the archive. */
    method VendoredPath(n: string, v: string, disk: Disk) returns (path: string)
      modifies disk`vendorDir
      ensures disk.vendorDir && path == Join(vendorCache, ArchiveName(n, v))
    {
      disk.vendorDir := true;
      path := Join(vendorCache, ArchiveName(n, v));
    }

    /** `vendored?(n, v)`: the archive exists. */
    method IsVendored(n: string, v: string, disk: Disk) returns (b: bool)
      modifies disk`vendorDir
      ensures disk.vendorDir && b == (ArchiveName(n, v) in disk.archives)
    {
      var _ := VendoredPath(n, v, disk);
      b := ArchiveName(n, v) in disk.archives;
    }

    /** `clean_up_old_cached_versions(n)`: removes, one by one, every file the
        glob `<stem>*.tar.gz` matches, and nothing else. */
    method CleanUpOldCachedVersions(n: string, disk: Disk)
      modifies disk`archives, disk`log
      ensures disk.archives == old(disk.archives) - Stale(old(disk.archives), n)
      ensures old(disk.log) <= disk.log
      ensures |disk.log| == |old(disk.log)| + |Stale(old(disk.archives), n)|
      ensures OnlyRemovals(disk.log[|old(disk.log)|..])
      ensures Removed(disk.log[|old(disk.log)|..]) == Stale(old(disk.archives), n)
    {
      disk.RemoveEach(Stale(disk.archives, n));
    }

    /** `vendor_cache(n, v)`: prune the package's archives, then create the
        archive file and stream the tarball into it. The file is opened before
        the request is made, so it exists even when the request fails. */
    method VendorCache(n: string, v: string, transfer: Transfer, disk: Disk) returns (r: Outcome<string>)
      modifies disk`vendorDir, disk`archives, disk`log
      ensures disk.vendorDir
      ensures disk.archives == old(disk.archives) - Stale(old(disk.archives), n) + {ArchiveName(n, v)}
      ensures ArchiveName(n, v) in disk.archives
      ensures old(disk.log) <= disk.log
      ensures |disk.log| == |old(disk.log)| + |Stale(old(disk.archives), n)| + 1
      ensures OnlyRemovals(disk.log[|old(disk.log)|..|disk.log| - 1])
      ensures Removed(disk.log[|old(disk.log)|..|disk.log| - 1]) == Stale(old(disk.archives), n)
      ensures disk.log[|disk.log| - 1] == Download(TarballUrl(n, v, token), ArchiveName(n, v))
      ensures r == match transfer
                   case Delivered => Pass
                   case HttpFailure(reason) =>
                     Fail("Error requesting <" + TarballUrl(n, v, token) + ">: " + reason)
    {
      ghost var before := disk.log;
      CleanUpOldCachedVersions(n, disk);
      ghost var cleaned := disk.log;
      var url := TarballUrl(n, v, token);
      var _ := VendoredPath(n, v, disk);
      disk.archives := disk.archives + {ArchiveName(n, v)};
      disk.log := disk.log + [Download(url, ArchiveName(n, v))];
      assert disk.log[|before|..|disk.log| - 1] == cleaned[|before|..];
      match transfer
      case Delivered => r := Pass;
      case HttpFailure(reason) => r := Fail("Error requesting <" + url + ">: " + reason);
    }

    // ----- the unpack cache -----

    /** What `cache_version_unpacked!` extracts: the vendored archive when
        there is one, else the file named after the package. */
    function ExtractionSource(v: string, archives: set<string>): ArchiveSource
    {
      if ArchiveName(uri, v) in archives then VendoredArchive(Join(vendorCache, ArchiveName(uri, v)))
      else FileNamed(name)
    }

    /** `cache_version_unpacked!(v)`: if the version's directory exists nothing
        happens at all; otherwise the directory is created and `tar` fills it.
        A failed `tar` leaves the directory behind with whatever it wrote. */
    method CacheVersionUnpacked(v: string, tar: TarRun, disk: Disk) returns (r: Outcome<InstallError>)
      modifies disk`vendorDir, disk`unpacked, disk`log
      ensures var dir := UnpackedDir(cachePath, hexdigest, v);
        if dir in old(disk.unpacked) then
          && r == Pass && disk.unpacked == old(disk.unpacked) && disk.log == old(disk.log)
          && disk.vendorDir == old(disk.vendorDir)
        else
          var source := ExtractionSource(v, disk.archives);
          && disk.vendorDir
          && disk.unpacked == old(disk.unpacked)[dir := tar.entries]
          && disk.log == old(disk.log) + [MakeDir(dir), Extract(source, dir)]
          && r == match tar
                  case Extracted(_) => Pass
                  case TarFailed(_, status) => Fail(ExtractionFailed(source, status))
    {
      var path := UnpackedDir(cachePath, hexdigest, v);
      if path in disk.unpacked {
        return Pass;
      }
      disk.unpacked := disk.unpacked[path := []];
      disk.log := disk.log + [MakeDir(path)];
      var _ := IsVendored(uri, v, disk);
      var target := ExtractionSource(v, disk.archives);
      disk.log := disk.log + [Extract(target, path)];
      disk.unpacked := disk.unpacked[path := tar.entries];
      match tar
      case Extracted(_) => r := Pass;
      case TarFailed(_, status) => r := Fail(ExtractionFailed(target, status));
    }

    // ----- install -----

    /** The tail of `install_version!`: remove what the install path holds,
        then copy the first entry of the unpacked directory there. With no
        entry to copy, `cp_r` raises after the removal. */
    method ReplaceInstall(dir: string, installPath: string, disk: Disk) returns (r: Outcome<InstallError>)
      modifies disk`trees, disk`log
      ensures var cleared := if installPath in old(disk.trees) then [RemoveTree(installPath)] else [];
        if dir in disk.unpacked && disk.unpacked[dir] != [] then
          var entry := Join(dir, disk.unpacked[dir][0]);
          && r == Pass
          && disk.trees == old(disk.trees)[installPath := entry]
          && disk.log == old(disk.log) + cleared + [CopyTree(entry, installPath)]
        else
          && r == Fail(NothingUnpacked(dir))
          && disk.trees == old(disk.trees) - {installPath}
          && disk.log == old(disk.log) + cleared
      ensures old(disk.log) <= disk.log && OnlyTreeCopies(disk.log[|old(disk.log)|..])
    {
      if installPath in disk.trees {
        disk.trees := disk.trees - {installPath};
        disk.log := disk.log + [RemoveTree(installPath)];
      }
      if dir !in disk.unpacked || disk.unpacked[dir] == [] {
        return Fail(NothingUnpacked(dir));
      }
      var entry := Join(dir, disk.unpacked[dir][0]);
      disk.trees := disk.trees[installPath := entry];
      disk.log := disk.log + [CopyTree(entry, installPath)];
      r := Pass;
    }

    /** Line 54 of `install_version!`: `vendor_cache` unless the archive is
        vendored already. */
    method FetchUnlessVendored(v: string, transfer: Transfer, disk: Disk) returns (r: Outcome<string>)
      modifies disk`vendorDir, disk`archives, disk`log
      ensures disk.vendorDir && ArchiveName(uri, v) in disk.archives
      ensures old(disk.log) <= disk.log
      ensures Extracts(disk.log[|old(disk.log)|..]) == 0
      ensures ArchiveName(uri, v) in old(disk.archives) ==>
        r == Pass && disk.archives == old(disk.archives) && disk.log == old(disk.log)
      ensures ArchiveName(uri, v) !in old(disk.archives) ==>
        && disk.archives == old(disk.archives) - Stale(old(disk.archives), uri) + {ArchiveName(uri, v)}
        && Downloads(disk.log[|old(disk.log)|..]) == 1
        && (r.Pass? <==> transfer.Delivered?)
        && (transfer.HttpFailure? ==> r == Fail("Error requesting <" + TarballUrl(uri, v, token) + ">: " + transfer.reason))
    {
      ghost var start := disk.log;
      var vendored := IsVendored(uri, v, disk);
      if !vendored {
        r := VendorCache(uri, v, transfer, disk);
        DownloadStep(start, disk.log);
      } else {
        assert disk.log[|start|..] == [];
        r := Pass;
      }
    }

    /** Lines 56-63 of `install_version!`: unpack the version unless it is
        unpacked already, then replace the install path with its first entry. */
    method UnpackAndCopy(v: string, installPath: string, tar: TarRun, disk: Disk)
      returns (r: Outcome<InstallError>)
      modifies disk`vendorDir, disk`unpacked, disk`trees, disk`log
      ensures old(disk.log) <= disk.log
      ensures Downloads(disk.log[|old(disk.log)|..]) == 0
      ensures Extracts(disk.log[|old(disk.log)|..])
          == if UnpackedDir(cachePath, hexdigest, v) in old(disk.unpacked) then 0 else 1
      ensures r.Pass? ==>
        var dir := UnpackedDir(cachePath, hexdigest, v);
        && dir in disk.unpacked && disk.unpacked[dir] != []
        && (dir in old(disk.unpacked) ==> disk.unpacked[dir] == old(disk.unpacked)[dir])
        && disk.trees == old(disk.trees)[installPath := Join(dir, disk.unpacked[dir][0])]
      ensures r.Fail? ==> r.error.ExtractionFailed? || r.error.NothingUnpacked?
      ensures r.Fail? && r.error.ExtractionFailed? ==> disk.trees == old(disk.trees)
      ensures r.Fail? && r.error.NothingUnpacked? ==> disk.trees == old(disk.trees) - {installPath}
      // other unpacked versions keep their entries
      ensures forall d :: d in old(disk.unpacked) ==> d in disk.unpacked && disk.unpacked[d] == old(disk.unpacked)[d]
      // a version not unpacked yet holds what `tar` left, read from the source `cache_version_unpacked!` picks
      ensures var dir := UnpackedDir(cachePath, hexdigest, v);
        dir !in old(disk.unpacked) ==>
          && disk.unpacked == old(disk.unpacked)[dir := tar.entries]
          && Extract(ExtractionSource(v, disk.archives), dir) in disk.log[|old(disk.log)|..]
      // only an extraction asks `vendored?`, which creates the vendor cache
      ensures disk.vendorDir == (old(disk.vendorDir) || UnpackedDir(cachePath, hexdigest, v) !in old(disk.unpacked))
      // an unpacked version is left as it is
      ensures UnpackedDir(cachePath, hexdigest, v) in old(disk.unpacked) ==> disk.unpacked == old(disk.unpacked)
      // the outcome: a failed `tar` raises, an empty directory makes `cp_r` raise, otherwise the copy is made
      ensures var dir := UnpackedDir(cachePath, hexdigest, v);
        var entries := if dir in old(disk.unpacked) then old(disk.unpacked)[dir] else tar.entries;
        r == if dir !in old(disk.unpacked) && tar.TarFailed? then Fail(ExtractionFailed(ExtractionSource(v, disk.archives), tar.status))
             else if entries == [] then Fail(NothingUnpacked(dir))
             else Pass
    {
      ghost var start := disk.log;
      r := CacheVersionUnpacked(v, tar, disk);
      UnpackStep(start, start, disk.log);
      if r.Fail? {
        return;
      }
      ghost var unpackedLog := disk.log;
      r := ReplaceInstall(UnpackedDir(cachePath, hexdigest, v), installPath, disk);
      InstallStep(start, unpackedLog, disk.log);
    }

    /** Lines 54-63 of `install_version!`, once the offline guard has let the
        call through: download unless vendored, then unpack and copy. */
    method FetchAndUnpack(v: string, installPath: string, transfer: Transfer, tar: TarRun, disk: Disk)
      returns (r: Outcome<InstallError>)
      requires !local || ArchiveName(uri, v) in disk.archives
      modifies disk
      ensures old(disk.log) <= disk.log
      ensures Downloads(disk.log[|old(disk.log)|..]) == if ArchiveName(uri, v) !in old(disk.archives) then 1 else 0
      ensures Extracts(disk.log[|old(disk.log)|..])
          == if (ArchiveName(uri, v) !in old(disk.archives) && transfer.HttpFailure?)
                || UnpackedDir(cachePath, hexdigest, v) in old(disk.unpacked)
             then 0 else 1
      ensures r.Pass? ==>
        var dir := UnpackedDir(cachePath, hexdigest, v);
        && dir in disk.unpacked && disk.unpacked[dir] != []
        && (dir in old(disk.unpacked) ==> disk.unpacked[dir] == old(disk.unpacked)[dir])
        && disk.trees == old(disk.trees)[installPath := Join(dir, disk.unpacked[dir][0])]
      ensures r.Fail? && r.error.NothingUnpacked? ==> disk.trees == old(disk.trees) - {installPath}
      ensures r.Fail? ==> r.error.DownloadFailed? || r.error.ExtractionFailed? || r.error.NothingUnpacked?
      ensures r.Fail? && (r.error.DownloadFailed? || r.error.ExtractionFailed?) ==> disk.trees == old(disk.trees)
      ensures ArchiveName(uri, v) in disk.archives && disk.vendorDir
      ensures forall d :: d in old(disk.unpacked) ==> d in disk.unpacked && disk.unpacked[d] == old(disk.unpacked)[d]
      ensures disk.archives == if ArchiveName(uri, v) in old(disk.archives) then old(disk.archives)
                               else old(disk.archives) - Stale(old(disk.archives), uri) + {ArchiveName(uri, v)}
      ensures var dir := UnpackedDir(cachePath, hexdigest, v);
        Extracts(disk.log[|old(disk.log)|..]) == 1 ==>
          && disk.unpacked == old(disk.unpacked)[dir := tar.entries]
          && Extract(VendoredArchive(Join(vendorCache, ArchiveName(uri, v))), dir) in disk.log[|old(disk.log)|..]
      // with no `tar` run the unpacked versions are left as they are
      ensures ((ArchiveName(uri, v) !in old(disk.archives) && transfer.HttpFailure?)
               || UnpackedDir(cachePath, hexdigest, v) in old(disk.unpacked))
              ==> disk.unpacked == old(disk.unpacked)
      // the outcome: the download's error, then `tar`'s, then `cp_r`'s, otherwise success
      ensures var dir := UnpackedDir(cachePath, hexdigest, v);
        var entries := if dir in old(disk.unpacked) then old(disk.unpacked)[dir] else tar.entries;
        r == if ArchiveName(uri, v) !in old(disk.archives) && transfer.HttpFailure? then
               Fail(DownloadFailed("Error requesting <" + TarballUrl(uri, v, token) + ">: " + transfer.reason))
             else if dir !in old(disk.unpacked) && tar.TarFailed? then
               Fail(ExtractionFailed(VendoredArchive(Join(vendorCache, ArchiveName(uri, v))), tar.status))
             else if entries == [] then Fail(NothingUnpacked(dir))
             else Pass
    {
      ghost var start := disk.log;
      var fetched := FetchUnlessVendored(v, transfer, disk);
      assert disk.unpacked == old(disk.unpacked);
      if fetched.Fail? {
        return Fail(DownloadFailed(fetched.error));
      }
      assert ArchiveName(uri, v) in old(disk.archives) || transfer.Delivered?;
      ghost var mid := disk.log;
      ghost var dir := UnpackedDir(cachePath, hexdigest, v);
      assert ExtractionSource(v, disk.archives) == VendoredArchive(Join(vendorCache, ArchiveName(uri, v)));
      r := UnpackAndCopy(v, installPath, tar, disk);
      assert r == if dir !in old(disk.unpacked) && tar.TarFailed? then
                    Fail(ExtractionFailed(VendoredArchive(Join(vendorCache, ArchiveName(uri, v))), tar.status))
                  else if (if dir in old(disk.unpacked) then old(disk.unpacked)[dir] else tar.entries) == [] then
                    Fail(NothingUnpacked(dir))
                  else Pass;
      assert disk.log[|start|..] == mid[|start|..] + disk.log[|mid|..];
      CountsAppend(mid[|start|..], disk.log[|mid|..]);
      if dir !in old(disk.unpacked) {
        assert Extract(VendoredArchive(Join(vendorCache, ArchiveName(uri, v))), dir) in disk.log[|mid|..];
      }
    }

    /** `install_version!(v, installPath)`: refuse when offline without the
        archive, download it unless it is vendored, unpack it unless it is
        unpacked already, and copy it to the install path. */
    method InstallVersion(v: string, installPath: string, transfer: Transfer, tar: TarRun, disk: Disk)
      returns (r: Outcome<InstallError>)
      modifies disk
      ensures old(disk.log) <= disk.log
      // offline with no archive: raise before any download, extraction or copy
      ensures local && ArchiveName(uri, v) !in old(disk.archives) ==>
        && r == Fail(NoLocalCopy("Could not find a local copy of " + uri + " at " + v + "."))
        && disk.archives == old(disk.archives) && disk.unpacked == old(disk.unpacked)
        && disk.trees == old(disk.trees) && disk.log == old(disk.log)
      // one download exactly when the archive is missing and the mode allows it
      ensures Downloads(disk.log[|old(disk.log)|..])
          == if !local && ArchiveName(uri, v) !in old(disk.archives) then 1 else 0
      // one tar run exactly when nothing failed before it and the version is not unpacked yet
      ensures Extracts(disk.log[|old(disk.log)|..])
          == if (local && ArchiveName(uri, v) !in old(disk.archives))
                || (ArchiveName(uri, v) !in old(disk.archives) && transfer.HttpFailure?)
                || UnpackedDir(cachePath, hexdigest, v) in old(disk.unpacked)
             then 0 else 1
      // success: the install path holds the first entry of the version's directory
      ensures r.Pass? ==>
        var dir := UnpackedDir(cachePath, hexdigest, v);
        && dir in disk.unpacked && disk.unpacked[dir] != []
        && (dir in old(disk.unpacked) ==> disk.unpacked[dir] == old(disk.unpacked)[dir])
        && disk.trees == old(disk.trees)[installPath := Join(dir, disk.unpacked[dir][0])]
      // an empty version directory: the old install is gone and nothing replaces it
      ensures r.Fail? && r.error.NothingUnpacked? ==> disk.trees == old(disk.trees) - {installPath}
      // a failed download or `tar` raises before the install path is touched
      ensures r.Fail? && (r.error.DownloadFailed? || r.error.ExtractionFailed?) ==> disk.trees == old(disk.trees)
      // unless refused offline, the archive is in the vendor cache afterwards
      ensures !(local && ArchiveName(uri, v) !in old(disk.archives)) ==> ArchiveName(uri, v) in disk.archives
      // other unpacked versions keep their entries
      ensures forall d :: d in old(disk.unpacked) ==> d in disk.unpacked && disk.unpacked[d] == old(disk.unpacked)[d]
      // `vendored?` runs on every path and creates the vendor cache
      ensures disk.vendorDir
      // a vendored archive stays as it is; a download prunes the package's archives and adds this one
      ensures ArchiveName(uri, v) in old(disk.archives) ==> disk.archives == old(disk.archives)
      ensures !local && ArchiveName(uri, v) !in old(disk.archives) ==>
        disk.archives == old(disk.archives) - Stale(old(disk.archives), uri) + {ArchiveName(uri, v)}
      // `tar` runs on the archive in the vendor cache, which the download put there first
      ensures var dir := UnpackedDir(cachePath, hexdigest, v);
        Extracts(disk.log[|old(disk.log)|..]) == 1 ==>
          && disk.unpacked == old(disk.unpacked)[dir := tar.entries]
          && Extract(VendoredArchive(Join(vendorCache, ArchiveName(uri, v))), dir) in disk.log[|old(disk.log)|..]
      // with no `tar` run the unpacked versions are left as they are
      ensures Extracts(disk.log[|old(disk.log)|..]) == 0 ==> disk.unpacked == old(disk.unpacked)
      // the outcome: the offline refusal, then the download's error, then `tar`'s, then `cp_r`'s, otherwise success
      ensures var dir := UnpackedDir(cachePath, hexdigest, v);
        var entries := if dir in old(disk.unpacked) then old(disk.unpacked)[dir] else tar.entries;
        r == if local && ArchiveName(uri, v) !in old(disk.archives) then
               Fail(NoLocalCopy("Could not find a local copy of " + uri + " at " + v + "."))
             else if ArchiveName(uri, v) !in old(disk.archives) && transfer.HttpFailure? then
               Fail(DownloadFailed("Error requesting <" + TarballUrl(uri, v, token) + ">: " + transfer.reason))
             else if dir !in old(disk.unpacked) && tar.TarFailed? then
               Fail(ExtractionFailed(VendoredArchive(Join(vendorCache, ArchiveName(uri, v))), tar.status))
             else if entries == [] then Fail(NothingUnpacked(dir))
             else Pass
    {
      var vendored := IsVendored(uri, v, disk);
      if local && !vendored {
        return Fail(NoLocalCopy("Could not find a local copy of " + uri + " at " + v + "."));
      }
      r := FetchAndUnpack(v, installPath, transfer, tar, disk);
    }
  }

  /** The log of `vendor_cache` adds one download and no `tar` run. */
  lemma DownloadStep(start: seq<Effect>, log: seq<Effect>)
    requires start <= log && |log| > |start|
    requires OnlyRemovals(log[|start|..|log| - 1]) && log[|log| - 1].Download?
    ensures Downloads(log[|start|..]) == 1 && Extracts(log[|start|..]) == 0
  {
    var removals := log[|start|..|log| - 1];
    assert log[|start|..] == removals + [log[|log| - 1]];
    RemovalsCountNothing(removals);
    CountsAppend(removals, [log[|log| - 1]]);
  }

  /** `cache_version_unpacked!` adds at most one `tar` run and no download. */
  lemma UnpackStep(start: seq<Effect>, mid: seq<Effect>, log: seq<Effect>)
    requires start <= mid
    requires log == mid || exists dir, src :: log == mid + [MakeDir(dir), Extract(src, dir)]
    ensures start <= log
    ensures Downloads(log[|start|..]) == Downloads(mid[|start|..])
    ensures Extracts(log[|start|..]) == Extracts(mid[|start|..]) + if log == mid then 0 else 1
  {
    assert log[|start|..] == mid[|start|..] + log[|mid|..];
    CountsAppend(mid[|start|..], log[|mid|..]);
    if log != mid {
      var dir, src :| log == mid + [MakeDir(dir), Extract(src, dir)];
      assert log[|mid|..] == [MakeDir(dir)] + [Extract(src, dir)];
      CountsAppend([MakeDir(dir)], [Extract(src, dir)]);
    }
  }

  /** The install tail adds neither a download nor a `tar` run. */
  lemma InstallStep(start: seq<Effect>, mid: seq<Effect>, log: seq<Effect>)
    requires start <= mid <= log
    requires OnlyTreeCopies(log[|mid|..])
    ensures start <= log
    ensures Downloads(log[|start|..]) == Downloads(mid[|start|..])
    ensures Extracts(log[|start|..]) == Extracts(mid[|start|..])
  {
    assert log[|start|..] == mid[|start|..] + log[|mid|..];
    CountsAppend(mid[|start|..], log[|mid|..]);
    CopiesCountNothing(log[|mid|..]);
  }

  predicate OnlyTreeCopies(effects: seq<Effect>) {
    forall i :: 0 <= i < |effects| ==> effects[i].RemoveTree? || effects[i].CopyTree?
  }

  lemma {:induction false} CopiesCountNothing(effects: seq<Effect>)
    requires OnlyTreeCopies(effects)
    ensures Downloads(effects) == 0 && Extracts(effects) == 0
  {
    if effects != [] {
      CopiesCountNothing(effects[..|effects| - 1]);
    }
  }
}
