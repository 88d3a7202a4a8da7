/** Where a version is unpacked: `<cache path>/version/<md5 of the version>`,
    with `cache path` itself `<source cache path>/<package name>`. The MD5
    digest is a parameter, since its computation is not part of this model. */
module UnpackCache {
  import opened Strings

  /** `Pathname#join` of a relative component. */
  function Join(dir: string, child: string): (r: string)
    ensures StartsWith(r, dir)
  {
    dir + "/" + child
  }

  /** `version_unpacked_cache_path(version)`. */
  function UnpackedDir(cachePath: string, hexdigest: string -> string, version: string): string {
    Join(Join(cachePath, "version"), hexdigest(version))
  }

  /** The directory is a function of the version alone, and two versions share
      one exactly when their digests coincide. */
  lemma UnpackedDirsDistinct(cachePath: string, hexdigest: string -> string, v1: string, v2: string)
    ensures UnpackedDir(cachePath, hexdigest, v1) == UnpackedDir(cachePath, hexdigest, v2)
        <==> hexdigest(v1) == hexdigest(v2)
  {
    var base := Join(cachePath, "version") + "/";
    var d1 := UnpackedDir(cachePath, hexdigest, v1);
    var d2 := UnpackedDir(cachePath, hexdigest, v2);
    assert d1 == base + hexdigest(v1) && d2 == base + hexdigest(v2);
    if d1 == d2 {
      assert d1[|base|..] == hexdigest(v1);
      assert d2[|base|..] == hexdigest(v2);
    }
  }
}
