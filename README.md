# GitHub tarball repositories of librarian-puppet, in Dafny

This project models `Librarian::Puppet::Source::GitHubTarball::Repo`. That class is how
librarian-puppet deals with a Puppet module published as tags of a GitHub repository. The
model covers five behaviours:

- **Listing versions.** The tag names are fetched page by page from the GitHub API. A leading
  `v` is stripped, the names are sorted byte-wise and reversed, and only names shaped like
  `d.d` or `d.d.d…` are kept. The result is memoised.
- **Pagination and errors.** The fetch loop follows the `rel="next"` entry of each `Link`
  header. It appends the API token to every URL it requests, and it turns a failed page into
  the error the Ruby code raises.
- **The vendor cache.** Each tarball is kept under a name derived from the package name and
  the version. Before a new download, a glob prunes the package's older archives.
- **The unpack cache.** Each version is extracted once, into a directory named after the MD5
  digest of the version.
- **Installation.** An offline guard comes first. Then the archive is downloaded unless it is
  vendored, the version is unpacked unless it already is, and finally the install path is
  replaced by the first entry of the unpacked directory.

Modules, one per file:

| file | module | what it holds |
|---|---|---|
| `wrappers.dfy` | `Wrappers` | `Option`, `Result` |
| `strings.dfy` | `Strings` | substring predicates, `Integer#to_s` |
| `byte_order.dfy` | `ByteOrder` | `String#<=>` (byte order), `sort`, `reverse` |
| `version_resolver.dfy` | `VersionResolver` | `gsub(/^v/, '')`, the version regex, the `versions` pipeline, the `delete_if` loop |
| `link_header.dfy` | `LinkHeader` | `split(",")`, the `rel=.*next.*` selection, the greedy `<(.*)>` capture |
| `tag_fetcher.dfy` | `TagFetcher` | responses, error classification, pagination (`api_call`) |
| `archive_cache.dfy` | `ArchiveCache` | `sub("/", "-")`, archive names, the cleanup glob |
| `unpack_cache.dfy` | `UnpackCache` | `version_unpacked_cache_path` |
| `repo.dfy` | `GitHubTarball` | the `Disk` (filesystem state) and `Repo` classes and their methods |

The filesystem is the `Disk` object. It holds:

- whether the vendor-cache directory exists;
- the set of archive files in it;
- the unpacked-version directories with their entries;
- what each install path was copied from;
- a ghost log of every effect on archives, unpacked directories and install paths (removal, download, mkpath of an unpacked-version directory, `tar`, rmtree, `cp_r`), in order. Creating the vendor-cache directory only sets its flag.

The `Repo` object holds the `@versions` memo and a ghost record of the URLs requested from the
tags API. Everything outside the model's reach is an input of the method that uses it:

- the HTTP responses, as a sequence of already parsed `Response`s;
- whether a tarball download succeeds (`Transfer`);
- what `tar` leaves behind and whether it fails (`TarRun`);
- the token (`ENV['GITHUB_API_TOKEN']`);
- the `local?` flag;
- the MD5 digest, as a function-valued constant.

### Consequences of the code that are easy to miss

- **`1.10.0` is not a version.** The regex `\A\d\.\d(\.\d.*)?\z` (repo.rb:35)
  allows one digit before and after the first dot. The tags
  `v1.2.0, v1.10.0, v2.0, bogus, v1.2.0rc1` therefore resolve to
  `2.0, 1.2.0rc1, 1.2.0`: `1.10.0` and `bogus` are dropped and `1.2.0rc1` is kept
  (`VersionResolver.ResolveVersionsExample`, `VersionResolver.SingleDigitParts`).
- **An empty tag list is not an error.** Only `nil` raises (repo.rb:28), and
  `api_call` never returns `nil`: it starts from `[]` and returns that list
  (repo.rb:132, 165). An empty tag list gives `[]`, which is memoised like any
  other list (`VersionResolver.NoTagsNoVersions`, `GitHubTarball.Repo.Versions`).
- **An unpacked version can be downloaded again.** `install_version!` decides
  the download only by whether the archive is vendored (repo.rb:54). An
  unpacked version whose archive has been pruned is downloaded again
  (`GitHubTarball.Repo.InstallVersion`).

### Behaviour of the code worth knowing

- **`vendor_cache` opens the archive file before the request.** After a failed
  download the file still exists, so `vendored?` holds afterwards.
- **The cleanup glob `<stem>*.tar.gz` is a bare prefix test.** Cleaning up
  `puppetlabs/apt` also deletes the archives of `puppetlabs/apt_ng`.
- **The token goes into the URL before the request.** Error messages therefore
  contain the URL with the token.

## Model

| member | source | states |
|---|---|---|
| Strings.DecimalRoundTrip | lib/librarian/puppet/source/githubtarball/repo.rb:151 | the decimal rendering of the status code in an error message loses nothing: reading its digits back gives the code |
| ByteOrder.LexLeTotal | lib/librarian/puppet/source/githubtarball/repo.rb:32 | byte-wise string comparison (used by `sort`) relates any two names |
| ByteOrder.LexLeTransitive | lib/librarian/puppet/source/githubtarball/repo.rb:32 | byte-wise comparison is transitive |
| ByteOrder.LexLeAntisymmetric | lib/librarian/puppet/source/githubtarball/repo.rb:32 | two names each no later than the other are equal |
| ByteOrder.Sort | lib/librarian/puppet/source/githubtarball/repo.rb:32 | `sort` returns an ascending permutation of its input |
| ByteOrder.AscendingUnique | lib/librarian/puppet/source/githubtarball/repo.rb:32 | two ascending permutations of the same names are equal, so the result of `sort` does not depend on the algorithm |
| ByteOrder.ReverseOfAscending | lib/librarian/puppet/source/githubtarball/repo.rb:32 | `reverse` of an ascending list is non-increasing |
| ByteOrder.ReverseKeepsElements | lib/librarian/puppet/source/githubtarball/repo.rb:32 | `reverse` keeps every element with its multiplicity |
| VersionResolver.StripVOneLine | lib/librarian/puppet/source/githubtarball/repo.rb:32 | on a name without newlines `gsub(/^v/, '')` removes exactly one leading `v` and changes nothing else |
| VersionResolver.StripAll | lib/librarian/puppet/source/githubtarball/repo.rb:32 | the `map` keeps the length and strips each name in place |
| VersionResolver.DeleteIfInvalid | lib/librarian/puppet/source/githubtarball/repo.rb:34-36 | the `delete_if` loop leaves exactly the entries the regex accepts, in their original order |
| VersionResolver.KeepCounts | lib/librarian/puppet/source/githubtarball/repo.rb:34-36 | after the filter a valid name occurs as often as before and an invalid one not at all |
| VersionResolver.KeepDescending | lib/librarian/puppet/source/githubtarball/repo.rb:34-36 | filtering a non-increasing list keeps it non-increasing |
| VersionResolver.ResolveVersionsMeaning | lib/librarian/puppet/source/githubtarball/repo.rb:32-38 | every listed version passes the regex; the list is non-increasing byte-wise; it holds exactly the valid stripped names, duplicates kept |
| VersionResolver.ResolveVersionsUnique | lib/librarian/puppet/source/githubtarball/repo.rb:32-38 | any non-increasing arrangement of the valid stripped names is the version list, so filtering before or after sorting gives the same list |
| VersionResolver.ResolvedIffValid | lib/librarian/puppet/source/githubtarball/repo.rb:32-38 | a string is a listed version if and only if it is a stripped tag name that passes the regex |
| VersionResolver.SingleDigitParts | lib/librarian/puppet/source/githubtarball/repo.rb:35 | `1.10.0` and `10.0` are never listed; `1.2.0rc1` is listed exactly when it is a stripped tag name |
| VersionResolver.ResolveVersionsExample | lib/librarian/puppet/source/githubtarball/repo.rb:32-38 | tags stripping to `1.2.0, 1.10.0, 2.0, bogus, 1.2.0rc1` resolve to `2.0, 1.2.0rc1, 1.2.0` |
| VersionResolver.NoTagsNoVersions | lib/librarian/puppet/source/githubtarball/repo.rb:28-38 | no tags give the empty version list, not an error |
| LinkHeader.SplitAllJoins | lib/librarian/puppet/source/githubtarball/repo.rb:161 | the pieces of `SplitAll` (`split(",")` before Ruby drops the trailing empty pieces) joined with commas give the header back, and no piece holds a comma |
| LinkHeader.DropTrailingEmpty | lib/librarian/puppet/source/githubtarball/repo.rb:161 | `split(",")` keeps a prefix of the comma-separated pieces that is empty or ends in a non-empty piece, and every piece it drops is empty |
| LinkHeader.SplitSelectsLikeSplitAll | lib/librarian/puppet/source/githubtarball/repo.rb:161-162 | dropping the trailing empty pieces never changes which entry `select { rel=.*next.* }.first` picks |
| LinkHeader.FirstRelNextMeaning | lib/librarian/puppet/source/githubtarball/repo.rb:161-162 | no entry is selected if and only if none matches `rel=.*next.*`; otherwise the selected entry matches and none before it does |
| LinkHeader.AngleCaptureMeaning | lib/librarian/puppet/source/githubtarball/repo.rb:163 | `match(/<(.*)>/)` is nil if and only if no `<…>` lies on one line; otherwise the capture runs from the leftmost matching `<` to the last `>` on its line |
| LinkHeader.GitHubHeaderLeadsToNext | lib/librarian/puppet/source/githubtarball/repo.rb:159-163 | GitHub's header `<next>; rel="next", <last>; rel="last"` leads to the URL `next` |
| TagFetcher.WithToken | lib/librarian/puppet/source/githubtarball/repo.rb:136 | without a token the URL is unchanged; with one it starts with the old URL and ends with `&access_token=<token>` |
| TagFetcher.ClassifyRateLimit | lib/librarian/puppet/source/githubtarball/repo.rb:146-149 | a failed page raises the rate-limit error if and only if it is a 403 whose message contains `API rate limit exceeded`; the text starts with that message and names `GITHUB_API_TOKEN` |
| TagFetcher.ClassifyApiError | lib/librarian/puppet/source/githubtarball/repo.rb:146-156 | any other failed page with a hash or unparsable body raises `Error fetching <url>: [<code>] ` followed by the message, or the raw body when there is no message |
| TagFetcher.Judge | lib/librarian/puppet/source/githubtarball/repo.rb:141-163 | a page lets the loop go on or stop cleanly if and only if it is a 200 with a tag array whose `Link` header does not select an entry lacking `<…>` |
| TagFetcher.Examine | lib/librarian/puppet/source/githubtarball/repo.rb:141-163 | the loop body's handling of one response is the verdict `Judge` gives |
| TagFetcher.Paginate | lib/librarian/puppet/source/githubtarball/repo.rb:131-166 | a listing never requests more pages than there are responses |
| TagFetcher.PaginateRequests | lib/librarian/puppet/source/githubtarball/repo.rb:133-163 | the first request is the start URL with the token, and each later one is the `rel="next"` URL of the page before with the token |
| TagFetcher.PaginateSuccess | lib/librarian/puppet/source/githubtarball/repo.rb:143-165 | a successful listing saw only 200 pages with tag arrays, ended at a page without a `rel="next"` entry, and returns the pages' tags concatenated in request order |
| TagFetcher.PaginateFailure | lib/librarian/puppet/source/githubtarball/repo.rb:146-163 | a failed listing fails with the error of its last page, or, when the responses ran out, names the URL it would request next |
| TagFetcher.ApiCall | lib/librarian/puppet/source/githubtarball/repo.rb:131-166 | the `while true` loop returns exactly the listing `Paginate` describes: same requests, same tags, same error |
| ArchiveCache.SubFirstAt | lib/librarian/puppet/source/githubtarball/repo.rb:99 | `sub("/", "-")` replaces the first `/` and only that one |
| ArchiveCache.SubFirstAbsent | lib/librarian/puppet/source/githubtarball/repo.rb:99 | a name without `/` is left as it is |
| ArchiveCache.StaleMeaning | lib/librarian/puppet/source/githubtarball/repo.rb:124 | the cleanup removes every archive of the package whose version has no `/`, and every file it removes starts with the package's stem and ends in `.tar.gz` |
| ArchiveCache.OwnArchivesAreStale | lib/librarian/puppet/source/githubtarball/repo.rb:97-124 | every archive of the package, for any version without `/`, is matched by its cleanup glob |
| ArchiveCache.NeighbourArchivesAreStale | lib/librarian/puppet/source/githubtarball/repo.rb:97-124 | archives of another package whose stem extends this one's are matched too |
| ArchiveCache.NeighbourExample | lib/librarian/puppet/source/githubtarball/repo.rb:124 | cleaning up `puppetlabs/apt` matches `puppetlabs-apt_ng-1.0.0.tar.gz` |
| UnpackCache.UnpackedDirsDistinct | lib/librarian/puppet/source/githubtarball/repo.rb:74-76 | two versions share an unpacked directory if and only if their digests coincide |
| GitHubTarball.Repo.Versions | lib/librarian/puppet/source/githubtarball/repo.rb:25-41 | a set memo (even `[]`) is returned with no request; otherwise one paginated fetch, whose resolved versions are returned and memoised, and a failed fetch memoises nothing |
| GitHubTarball.Repo.Manifests | lib/librarian/puppet/source/githubtarball/repo.rb:43-47 | one manifest per version, in the same order; with nothing memoised, the tags API is paginated once, a successful fetch memoises the versions resolved from the fetched tags, and a failed one raises its error and memoises nothing |
| GitHubTarball.Repo.VendoredPath | lib/librarian/puppet/source/githubtarball/repo.rb:97-100 | the vendor cache exists afterwards and the path is `<vendor cache>/<stem>-<version>.tar.gz` |
| GitHubTarball.Repo.IsVendored | lib/librarian/puppet/source/githubtarball/repo.rb:93-95 | true exactly when that archive file exists |
| GitHubTarball.Disk.RemoveEach | lib/librarian/puppet/source/githubtarball/repo.rb:124-126 | the files given are removed one at a time, each logged once, and nothing else changes |
| GitHubTarball.Repo.CleanUpOldCachedVersions | lib/librarian/puppet/source/githubtarball/repo.rb:123-127 | exactly the matched archives are removed; every other file stays |
| GitHubTarball.Repo.VendorCache | lib/librarian/puppet/source/githubtarball/repo.rb:102-121 | prune, then one download to the archive path; the archive exists afterwards even when the request fails, which raises `Error requesting <url>: …` |
| GitHubTarball.Repo.CacheVersionUnpacked | lib/librarian/puppet/source/githubtarball/repo.rb:82-91 | an existing directory means nothing happens; otherwise mkpath then one `tar` run, which reads the vendored archive when it exists and otherwise the file named after the package, failing with its status |
| GitHubTarball.Repo.FetchUnlessVendored | lib/librarian/puppet/source/githubtarball/repo.rb:54 | no effect when vendored; otherwise the package's archives are pruned, exactly one download is made and the archive exists afterwards; it passes exactly when the transfer is delivered, and a failed transfer raises `Error requesting <url>: <reason>` |
| GitHubTarball.Repo.ReplaceInstall | lib/librarian/puppet/source/githubtarball/repo.rb:58-63 | an existing install path is removed first; then it holds the first entry of the unpacked directory, or the copy fails when there is none |
| GitHubTarball.Repo.UnpackAndCopy | lib/librarian/puppet/source/githubtarball/repo.rb:56-63 | the outcome is fixed by the inputs: a failed `tar` on a version not unpacked raises with the source `cache_version_unpacked!` picks and its status; an unpacked directory without entries makes the copy raise; otherwise it passes. One `tar` run exactly when the version is not unpacked; the directory then holds exactly what `tar` left, and the vendor cache is created; an unpacked version leaves all unpacked directories as they were. On success the install path holds the directory's first entry; a failed `tar` leaves the install path untouched, and an empty directory leaves it removed |
| GitHubTarball.Repo.FetchAndUnpack | lib/librarian/puppet/source/githubtarball/repo.rb:54-63 | once the offline guard has passed, the outcome is fixed by the inputs, in order: the download's `Error requesting <url>: <reason>`, then a failed `tar`, then an empty unpacked directory, otherwise success. A download happens exactly when the archive is missing, and it prunes and extends the archives as `vendor_cache` does. A `tar` run, reading the vendored archive, happens exactly when the download did not fail and the version is not unpacked; without one the unpacked directories stay as they were. The install path is replaced on success and untouched on a failed download or `tar` |
| GitHubTarball.Repo.InstallVersion | lib/librarian/puppet/source/githubtarball/repo.rb:49-64 | the outcome is fixed by the inputs, in order: the offline refusal, the download's error, `tar`'s error, an empty unpacked directory, otherwise success, so an already unpacked version with entries is copied. The refusal comes before any download, extraction or change to the install path; only the vendor-cache directory may be created, and it exists afterwards on every path. Exactly one download when the archive is missing, which prunes the package's archives and adds this one; a vendored archive leaves the archives as they were. One `tar` run exactly when nothing failed and the version is not unpacked; it reads the archive in the vendor cache, and the directory then holds exactly what `tar` left. Without a `tar` run the unpacked directories stay as they were. On success the install path holds the unpacked directory's first entry; a failed download or `tar` leaves it untouched |

## Left out

- HTTP (`http_get`, the `open-uri` streaming and its 8192-byte chunks). The responses are a
  sequence of already parsed inputs, and a download is a single effect whose outcome is an
  input.
- `TagFetcher.Paginate`, `TagFetcher.ApiCall`: the server's answers are a finite sequence.
  Running out of them ends the listing with `Unanswered(url)` instead of a further request.
- JSON parsing. Each response carries its parsed form. A tag record is reduced to its
  name, and tag records without a `name` are not modelled.
- `TagFetcher.Classify`: a JSON body that is neither a hash nor a parse error becomes
  `UnexpectedJson`. Ruby differs there. An array body raises a `TypeError`. A string body
  yields `"message"` from `['message']` when it contains that word, giving the
  `Error fetching <url>: [<code>] message` text. Otherwise it yields `nil` and falls through
  to the raw-body error at repo.rb:156. These texts are not modelled. A `message` that is not
  a string cannot be expressed either: Ruby interpolates a number into the error text
  (repo.rb:151), raises `NoMethodError` for a number on a 403 (repo.rb:148), and lets `false`
  fall through to the raw-body error (repo.rb:156). The same holds for a 200 page whose body is not an array.
- MD5 is a function-valued parameter. Its computation is not part of this model.
- The `tar` subprocess is an input giving the entries it leaves and whether it failed. The
  model does not check what the archive holds.
- `ENV` and the `environment` collaborator become the `token`, `local` and `vendorCache`
  parameters. `debug` logging is left out.
- `Pathname` semantics are reduced to joining with `/`. Names holding `..`, an absolute
  component or a second `/` (which would need subdirectories) are not modelled.
- `ArchiveCache.GlobMatch`: glob metacharacters (`*`, `?`, `[`, `{`) inside a package name
  are taken literally.
- `GitHubTarball.Repo.Manifests`: a `Manifest` is a record of source, name and version. Its
  own behaviour is not part of this model.
- The rewrapping of `OpenURI::HTTPError` keeps only the message text.
- Concurrent runs and other processes touching the same directories are not modelled.
- `GitHubTarball.Disk.RemoveEach` removes the matched files in no particular order. The
  order of Ruby's `Dir[]` is not modelled.
