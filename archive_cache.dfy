/** Naming and pruning of the vendored archives: the file
    `<name with its first / as ->-<version>.tar.gz` in the vendor cache, and
    the glob `<prefix>*.tar.gz` the cleanup deletes. Files of the vendor
    cache are given by their paths relative to it. */
module ArchiveCache {
  import opened Wrappers
  import opened Strings

  /** Ruby's `s.sub(from, to)` for a one-character pattern: only the first
      occurrence is replaced. */
  function SubFirst(s: string, from: char, to: char): (r: string)
    ensures |r| == |s|
  {
    if s == [] then []
    else if s[0] == from then [to] + s[1..]
    else [s[0]] + SubFirst(s[1..], from, to)
  }

  /** Without an occurrence nothing changes. */
  lemma {:induction false} SubFirstAbsent(s: string, from: char, to: char)
    requires from !in s
    ensures SubFirst(s, from, to) == s
  {
    if s != [] {
      assert from !in s[1..];
      SubFirstAbsent(s[1..], from, to);
      assert s == [s[0]] + s[1..];
    }
  }

  /** With a first occurrence at `i`, exactly that character is replaced. */
  lemma {:induction false} SubFirstAt(s: string, from: char, to: char, i: nat)
    requires i < |s| && s[i] == from && from !in s[..i]
    ensures SubFirst(s, from, to) == s[..i] + [to] + s[i + 1..]
  {
    if i > 0 {
      assert s[0] == s[..i][0] && s[0] != from;
      assert s[1..][..i - 1] == s[1..i];
      assert from !in s[1..][..i - 1];
      SubFirstAt(s[1..], from, to, i - 1);
      assert s[..i] == [s[0]] + s[1..][..i - 1];
      assert s[1..][i..] == s[i + 1..];
    }
  }

  /** `name.sub("/", "-")`: the stem every archive of the package starts with. */
  function Stem(name: string): string {
    SubFirst(name, '/', '-')
  }

  /** `vendored_path`'s file name. */
  function ArchiveName(name: string, version: string): string {
    Stem(name) + "-" + version + ".tar.gz"
  }

  /** The tarball URL `vendor_cache` downloads from. */
  function TarballUrl(name: string, version: string, token: Option<string>): string {
    "https://api.github.com/repos/" + name + "/tarball/" + version
      + match token case None => "" case Some(t) => "?access_token=" + t
  }

  /** The `*` of the glob stands at the start of a path component, where it
      does not match a leading dot. */
  predicate StarStartsComponent(prefix: string) {
    prefix == [] || prefix[|prefix| - 1] == '/'
  }

  /** `Dir["#{vendor_cache}/#{prefix}*.tar.gz"]` matches the file `f`: `f` is
      the prefix, then a run without `/`, then `.tar.gz`; a dot-file is not
      matched by a `*` that starts its component. */
  predicate GlobMatch(prefix: string, f: string) {
    && |f| >= |prefix| + 7
    && StartsWith(f, prefix)
    && EndsWith(f, ".tar.gz")
    && '/' !in f[|prefix|..|f| - 7]
    && (StarStartsComponent(prefix) ==> f[|prefix|] != '.')
  }

  /** The archives `clean_up_old_cached_versions(name)` deletes. */
  function Stale(files: set<string>, name: string): set<string>
  {
    set f | f in files && GlobMatch(Stem(name), f)
  }

  /** Every archive of the package, whatever its version (one without a `/`),
      is pruned by its cleanup. */
  lemma OwnArchivesAreStale(name: string, version: string)
    requires '/' !in version
    ensures GlobMatch(Stem(name), ArchiveName(name, version))
  {
    var p := Stem(name);
    var f := ArchiveName(name, version);
    assert f == p + ("-" + version) + ".tar.gz";
    assert f[..|p|] == p;
    assert f[|f| - 7..] == ".tar.gz";
    assert f[|p|..|f| - 7] == "-" + version;
    assert f[|p|] == '-';
  }

  /** What the cleanup removes, in terms of archive names: every archive of
      the package itself (any version without `/`) is among the removed
      files, and every removed file starts with the package's stem and ends
      in `.tar.gz`. */
  lemma StaleMeaning(files: set<string>, name: string)
    ensures forall v :: '/' !in v && ArchiveName(name, v) in files ==> ArchiveName(name, v) in Stale(files, name)
    ensures forall f :: f in Stale(files, name) ==> StartsWith(f, Stem(name)) && EndsWith(f, ".tar.gz")
  {
    forall v | '/' !in v && ArchiveName(name, v) in files
      ensures ArchiveName(name, v) in Stale(files, name)
    {
      OwnArchivesAreStale(name, v);
    }
  }

  /** The glob is a bare prefix test, so the archives of another package whose
      stem extends this one's are pruned too: cleaning up `puppetlabs/apt`
      deletes the archives of `puppetlabs/apt_ng`. */
  lemma NeighbourArchivesAreStale(name: string, other: string, version: string)
    requires StartsWith(Stem(other), Stem(name))
    requires '/' !in Stem(other)[|Stem(name)|..] && '/' !in version
    requires !StarStartsComponent(Stem(name))
    ensures GlobMatch(Stem(name), ArchiveName(other, version))
  {
    var p := Stem(name);
    var q := Stem(other);
    var f := ArchiveName(other, version);
    var mid := q[|p|..] + "-" + version;
    assert q == p + q[|p|..];
    assert f == p + mid + ".tar.gz";
    assert f[..|p|] == p;
    assert f[|f| - 7..] == ".tar.gz";
    assert f[|p|..|f| - 7] == mid;
  }

  lemma NeighbourExample(name: string, other: string)
    requires name == "puppetlabs/apt" && other == "puppetlabs/apt_ng"
    ensures GlobMatch(Stem(name), ArchiveName(other, "1.0.0"))
  {
    assert name[..10] == "puppetlabs" && other[..10] == "puppetlabs";
    SubFirstAt(name, '/', '-', 10);
    SubFirstAt(other, '/', '-', 10);
    assert Stem(name) == "puppetlabs-apt";
    assert Stem(other) == "puppetlabs-apt_ng";
    assert Stem(other)[|Stem(name)|..] == "_ng";
    NeighbourArchivesAreStale(name, other, "1.0.0");
  }
}
