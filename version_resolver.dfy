/** How `Repo#versions` turns tag names into the version list: strip a leading
    `v`, sort byte-wise, reverse, and keep only the names that look like
    `major.minor[.patch...]` with one-digit major and minor. */
module VersionResolver {
  import opened Strings
  import opened ByteOrder

  /** Ruby's `gsub(/^v/, '')`: `^` matches at the start of the string and after
      every newline, so a `v` standing at the start of any line is removed.
      `atLineStart` says whether the current position is such a start. */
  function StripFrom(s: string, atLineStart: bool): (r: string)
    ensures |r| <= |s|
  {
    if s == [] then []
    else if atLineStart && s[0] == 'v' then StripFrom(s[1..], false)
    else [s[0]] + StripFrom(s[1..], s[0] == '\n')
  }

  function StripV(name: string): string {
    StripFrom(name, true)
  }

  /** On a name without a newline (every real tag name) exactly one leading
      `v` goes, and nothing else changes. */
  lemma {:induction false} StripVOneLine(name: string)
    requires '\n' !in name
    ensures StripV(name) == if name != [] && name[0] == 'v' then name[1..] else name
  {
    if name != [] {
      if name[0] == 'v' {
        StripFromKeeps(name[1..]);
      } else {
        StripFromKeeps(name[1..]);
        assert name == [name[0]] + name[1..];
      }
    }
  }

  lemma {:induction false} StripFromKeeps(s: string)
    requires '\n' !in s
    ensures StripFrom(s, false) == s
  {
    if s != [] {
      assert s[0] != '\n';
      StripFromKeeps(s[1..]);
      assert s == [s[0]] + s[1..];
    }
  }

  /** The regex `\A\d\.\d(\.\d.*)?\z`: a digit, a dot, a digit, then either
      the end or a dot, a digit and any run of characters other than a
      newline (`.` does not match a newline and `\z` is the very end). */
  predicate ValidVersion(s: string) {
    && |s| >= 3
    && IsDigit(s[0]) && s[1] == '.' && IsDigit(s[2])
    && (|s| == 3 || (|s| >= 5 && s[3] == '.' && IsDigit(s[4]) && '\n' !in s[5..]))
  }

  /** The names of the tags with their leading `v` stripped, in tag order. */
  function StripAll(names: seq<string>): (r: seq<string>)
    ensures |r| == |names|
    ensures forall i :: 0 <= i < |names| ==> r[i] == StripV(names[i])
  {
    if names == [] then [] else [StripV(names[0])] + StripAll(names[1..])
  }

  /** What `delete_if { |v| v !~ regex }` leaves: the valid entries in their
      original order. */
  function Keep(s: seq<string>): (r: seq<string>) {
    if s == [] then []
    else if ValidVersion(s[0]) then [s[0]] + Keep(s[1..])
    else Keep(s[1..])
  }

  /** `Repo#versions` after the tag list has been fetched. */
  function ResolveVersions(names: seq<string>): seq<string> {
    Keep(Reverse(Sort(StripAll(names))))
  }

  /** The loop `delete_if` runs over `all_versions`, dropping every entry the
      regex rejects. */
  method DeleteIfInvalid(all: seq<string>) returns (kept: seq<string>)
    ensures kept == Keep(all)
  {
    kept := [];
    var i := 0;
    while i < |all|
      invariant 0 <= i <= |all|
      invariant kept + Keep(all[i..]) == Keep(all)
    {
      assert all[i..] == [all[i]] + all[i + 1..];
      if ValidVersion(all[i]) {
        kept := kept + [all[i]];
      }
      i := i + 1;
    }
  }

  // ----- what Keep preserves -----

  lemma {:induction false} KeepCounts(s: seq<string>, x: string)
    ensures multiset(Keep(s))[x] == if ValidVersion(x) then multiset(s)[x] else 0
  {
    if s != [] {
      KeepCounts(s[1..], x);
      assert s == [s[0]] + s[1..];
    }
  }

  lemma KeepRespectsMultiset(a: seq<string>, b: seq<string>)
    requires multiset(a) == multiset(b)
    ensures multiset(Keep(a)) == multiset(Keep(b))
  {
    forall x ensures multiset(Keep(a))[x] == multiset(Keep(b))[x] {
      KeepCounts(a, x);
      KeepCounts(b, x);
    }
  }

  lemma {:induction false} KeepSubset(s: seq<string>)
    ensures forall x :: x in Keep(s) ==> x in s && ValidVersion(x)
  {
    if s != [] { KeepSubset(s[1..]); }
  }

  lemma {:induction false} KeepDescending(s: seq<string>)
    requires Descending(s)
    ensures Descending(Keep(s))
  {
    if s != [] {
      assert Descending(s[1..]);
      KeepDescending(s[1..]);
      KeepSubset(s[1..]);
      if ValidVersion(s[0]) {
        var k := Keep(s[1..]);
        forall j | 0 <= j < |k| ensures LexLe(k[j], s[0]) {
          assert k[j] in s[1..];
        }
      }
    }
  }

  // ----- the version list, stated outright -----

  /** Every entry of the version list passes the regex, the list is
      non-increasing byte-wise, and it holds exactly the stripped names that
      pass the regex, each as often as it occurs among the tags. */
  lemma ResolveVersionsMeaning(names: seq<string>)
    ensures forall v :: v in ResolveVersions(names) ==> ValidVersion(v)
    ensures Descending(ResolveVersions(names))
    ensures multiset(ResolveVersions(names)) == multiset(Keep(StripAll(names)))
  {
    var sorted := Sort(StripAll(names));
    ReverseOfAscending(sorted);
    ReverseKeepsElements(sorted);
    KeepSubset(Reverse(sorted));
    KeepDescending(Reverse(sorted));
    KeepRespectsMultiset(Reverse(sorted), StripAll(names));
  }

  /** Filtering first and sorting afterwards gives the same list: any
      non-increasing arrangement of the valid stripped names is the version
      list, so the result does not depend on the sort algorithm. */
  lemma ResolveVersionsUnique(names: seq<string>, candidate: seq<string>)
    requires Descending(candidate)
    requires multiset(candidate) == multiset(Keep(StripAll(names)))
    ensures candidate == ResolveVersions(names)
  {
    ResolveVersionsMeaning(names);
    DescendingUnique(candidate, ResolveVersions(names));
  }

  /** A version is listed exactly when it is a stripped tag name that passes
      the regex. */
  lemma ResolvedIffValid(names: seq<string>, v: string)
    ensures v in ResolveVersions(names) <==> v in StripAll(names) && ValidVersion(v)
  {
    ResolveVersionsMeaning(names);
    KeepCounts(StripAll(names), v);
    assert v in ResolveVersions(names) <==> multiset(ResolveVersions(names))[v] > 0;
    assert v in StripAll(names) <==> multiset(StripAll(names))[v] > 0;
  }

  /** Two-digit minors and majors never reach the version list, while a
      pre-release suffix after the patch digit does. */
  lemma SingleDigitParts(names: seq<string>, minor10: string, major10: string, rc: string)
    requires minor10 == "1.10.0" && major10 == "10.0" && rc == "1.2.0rc1"
    ensures minor10 !in ResolveVersions(names) && major10 !in ResolveVersions(names)
    ensures rc in ResolveVersions(names) <==> rc in StripAll(names)
  {
    assert !ValidVersion(minor10) && !ValidVersion(major10) && ValidVersion(rc);
    ResolvedIffValid(names, minor10);
    ResolvedIffValid(names, major10);
    ResolvedIffValid(names, rc);
  }

  /** A tag list with no entries resolves to the empty version list, which is
      not an error: only a nil tag list would raise, and the fetcher never
      returns nil. */
  lemma NoTagsNoVersions()
    ensures ResolveVersions([]) == []
  {
  }

  /** A worked case: tags that strip to `1.2.0`, `1.10.0`, `2.0`, `bogus` and
      `1.2.0rc1` (for instance `v1.2.0`, `v1.10.0`, `v2.0`, `bogus`,
      `v1.2.0rc1`, by `StripVOneLine`). The two-digit minor and the name
      that is no version are dropped, a pre-release suffix after the patch
      digit survives, and the order is byte order. */
  lemma ResolveVersionsExample(names: seq<string>)
    requires StripAll(names) == ["1.2.0", "1.10.0", "2.0", "bogus", "1.2.0rc1"]
    ensures ResolveVersions(names) == ["2.0", "1.2.0rc1", "1.2.0"]
  {
    ExampleKeep(StripAll(names));
    var expected := ["2.0", "1.2.0rc1", "1.2.0"];
    ExampleOrder(expected);
    assert multiset(expected) == multiset(["1.2.0", "2.0", "1.2.0rc1"]);
    ResolveVersionsUnique(names, expected);
  }

  lemma ExampleKeep(stripped: seq<string>)
    requires stripped == ["1.2.0", "1.10.0", "2.0", "bogus", "1.2.0rc1"]
    ensures Keep(stripped) == ["1.2.0", "2.0", "1.2.0rc1"]
  {
    assert !ValidVersion("1.10.0") && !ValidVersion("bogus");
    assert ValidVersion("1.2.0") && ValidVersion("2.0") && ValidVersion("1.2.0rc1");
    assert Keep(stripped[5..]) == [];
    assert Keep(stripped[4..]) == ["1.2.0rc1"];
    assert Keep(stripped[3..]) == ["1.2.0rc1"];
    assert Keep(stripped[2..]) == ["2.0", "1.2.0rc1"];
    assert Keep(stripped[1..]) == ["2.0", "1.2.0rc1"];
  }

  lemma ExampleOrder(expected: seq<string>)
    requires expected == ["2.0", "1.2.0rc1", "1.2.0"]
    ensures Descending(expected)
  {
    assert LexLe("1.2.0rc1", "2.0");
    assert LexLe("1.2.0", "1.2.0rc1");
    LexLeTransitive("1.2.0", "1.2.0rc1", "2.0");
  }
}
