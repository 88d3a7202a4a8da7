/** Following the `Link` response header (the web-linking format of RFC 8288)
    the way `api_call` does it: split the header at commas, take the first
    entry matching the regex `rel=.*next.*`, and capture with the regex `<(.*)>` what stands
    between its first `<` and the last `>` after it on the same line. */
module LinkHeader {
  import opened Wrappers
  import opened Strings

  // ----- Ruby's String#split(",") -----

  /** Every piece between commas, empty ones included. */
  function SplitAll(s: string): (r: seq<string>)
    ensures |r| >= 1
  {
    if s == [] then [[]]
    else if s[0] == ',' then [[]] + SplitAll(s[1..])
    else
      var rest := SplitAll(s[1..]);
      [[s[0]] + rest[0]] + rest[1..]
  }

  function JoinCommas(pieces: seq<string>): string
    requires |pieces| >= 1
  {
    if |pieces| == 1 then pieces[0] else pieces[0] + [','] + JoinCommas(pieces[1..])
  }

  /** The pieces put back together with commas give the header again, and no
      piece holds a comma. */
  lemma {:induction false} SplitAllJoins(s: string)
    ensures JoinCommas(SplitAll(s)) == s
    ensures forall i :: 0 <= i < |SplitAll(s)| ==> ',' !in SplitAll(s)[i]
  {
    if s != [] {
      SplitAllJoins(s[1..]);
      var rest := SplitAll(s[1..]);
      if s[0] == ',' {
        assert SplitAll(s) == [[]] + rest;
        assert s == [','] + s[1..];
      } else {
        var r := SplitAll(s);
        assert r == [[s[0]] + rest[0]] + rest[1..];
        assert ',' !in r[0];
        if |rest| == 1 {
          assert s == [s[0]] + rest[0];
        } else {
          assert rest == [rest[0]] + rest[1..];
          assert JoinCommas(rest) == rest[0] + [','] + JoinCommas(rest[1..]);
          assert JoinCommas(r) == ([s[0]] + rest[0]) + [','] + JoinCommas(r[1..]);
          assert r[1..] == rest[1..];
          assert s == [s[0]] + s[1..];
        }
      }
    }
  }

  /** `split` drops the empty pieces at the end: what is kept is a prefix
      ending in a non-empty piece, and every piece dropped is empty. */
  function DropTrailingEmpty(pieces: seq<string>): (r: seq<string>)
    ensures |r| <= |pieces| && r == pieces[..|r|]
    ensures r == [] || r[|r| - 1] != []
    ensures forall i :: |r| <= i < |pieces| ==> pieces[i] == []
  {
    if pieces == [] then []
    else if pieces[|pieces| - 1] == [] then DropTrailingEmpty(pieces[..|pieces| - 1])
    else pieces
  }

  function Split(s: string): seq<string> {
    DropTrailingEmpty(SplitAll(s))
  }

  // ----- the regex rel=.*next.* -----

  /** `rel=` and, later on the same line, `next`. */
  predicate RelNext(entry: string) {
    exists i, j :: 0 <= i < |entry| && 0 <= j < |entry| && i + 4 <= j
      && OccursAt(entry, "rel=", i) && OccursAt(entry, "next", j)
      && '\n' !in entry[i + 4..j]
  }

  /** `select { ... }.first`: the first entry that matches. */
  function FirstRelNext(entries: seq<string>): Option<string> {
    if entries == [] then None
    else if RelNext(entries[0]) then Some(entries[0])
    else FirstRelNext(entries[1..])
  }

  /** `None` exactly when no entry matches; otherwise the entry found matches
      and no entry before it does. */
  lemma {:induction false} FirstRelNextMeaning(entries: seq<string>)
    ensures FirstRelNext(entries).None? <==> forall i :: 0 <= i < |entries| ==> !RelNext(entries[i])
    ensures FirstRelNext(entries).Some? ==> exists k :: (0 <= k < |entries|
      && entries[k] == FirstRelNext(entries).value && RelNext(entries[k])
      && forall i :: 0 <= i < k ==> !RelNext(entries[i]))
  {
    if entries != [] && !RelNext(entries[0]) {
      FirstRelNextMeaning(entries[1..]);
      assert forall i :: 1 <= i < |entries| ==> entries[i] == entries[1..][i - 1];
      if FirstRelNext(entries).Some? {
        var k :| 0 <= k < |entries[1..]| && entries[1..][k] == FirstRelNext(entries).value
          && RelNext(entries[1..][k]) && forall i :: 0 <= i < k ==> !RelNext(entries[1..][i]);
        assert entries[k + 1] == entries[1..][k];
      }
    } else if entries != [] {
      assert entries[0] == FirstRelNext(entries).value;
    }
  }

  /** Empty entries after the last one never change the selection. */
  lemma {:induction false} FirstRelNextIgnoresEmptyTail(entries: seq<string>, tail: seq<string>)
    requires forall i :: 0 <= i < |tail| ==> tail[i] == []
    ensures FirstRelNext(entries + tail) == FirstRelNext(entries)
  {
    if entries == [] {
      if tail != [] {
        assert [] + tail == tail && [] + tail[1..] == tail[1..];
        assert !RelNext(tail[0]);
        FirstRelNextIgnoresEmptyTail([], tail[1..]);
      }
    } else {
      assert (entries + tail)[0] == entries[0];
      assert (entries + tail)[1..] == entries[1..] + tail;
      FirstRelNextIgnoresEmptyTail(entries[1..], tail);
    }
  }

  /** The `rel=next` entry of `split(",")` is the one found among all the
      comma-separated pieces, trailing empty ones included. */
  lemma SplitSelectsLikeSplitAll(header: string)
    ensures FirstRelNext(Split(header)) == FirstRelNext(SplitAll(header))
  {
    var all := SplitAll(header);
    var kept := Split(header);
    assert all == kept + all[|kept|..];
    FirstRelNextIgnoresEmptyTail(kept, all[|kept|..]);
  }

  // ----- the regex <(.*)> -----

  /** A match of `<(.*)>` from `<` at `p` to `>` at `q`. */
  predicate AngleMatch(s: string, p: int, q: int) {
    0 <= p < q < |s| && s[p] == '<' && s[q] == '>' && '\n' !in s[p + 1..q]
  }

  /** The first newline at or after `from`, or the end. */
  function LineEnd(s: string, from: nat): (e: nat)
    requires from <= |s|
    ensures from <= e <= |s| && '\n' !in s[from..e]
    ensures e < |s| ==> s[e] == '\n'
    decreases |s| - from
  {
    if from == |s| || s[from] == '\n' then from
    else
      var e := LineEnd(s, from + 1);
      assert s[from..e] == [s[from]] + s[from + 1..e];
      e
  }

  /** The last `>` in `s[lo..hi]`. */
  function LastGt(s: string, lo: nat, hi: nat): (r: Option<nat>)
    requires lo <= hi <= |s|
    ensures r.Some? ==> lo <= r.value < hi && s[r.value] == '>'
    decreases hi - lo
  {
    if hi == lo then None
    else if s[hi - 1] == '>' then Some(hi - 1)
    else LastGt(s, lo, hi - 1)
  }

  lemma {:induction false} LastGtMeaning(s: string, lo: nat, hi: nat)
    requires lo <= hi <= |s|
    ensures LastGt(s, lo, hi).None? ==> forall k :: lo <= k < hi ==> s[k] != '>'
    ensures LastGt(s, lo, hi).Some? ==> (var q := LastGt(s, lo, hi).value;
      lo <= q < hi && s[q] == '>' && forall k :: q < k < hi ==> s[k] != '>')
    decreases hi - lo
  {
    if hi != lo && s[hi - 1] != '>' {
      LastGtMeaning(s, lo, hi - 1);
    }
  }

  /** Searches for the leftmost `<` from `p` on that has a `>` after it on its
      line, and captures up to the last such `>` (the `.*` is greedy). */
  function CaptureFrom(s: string, p: nat): Option<string>
    decreases |s| - p
  {
    if p >= |s| then None
    else if s[p] == '<' then
      match LastGt(s, p + 1, LineEnd(s, p + 1))
      case Some(q) => Some(s[p + 1..q])
      case None => CaptureFrom(s, p + 1)
    else CaptureFrom(s, p + 1)
  }

  /** Ruby's `entry.match(/<(.*)>/)[1]`; `None` is the nil match. */
  function AngleCapture(s: string): Option<string> {
    CaptureFrom(s, 0)
  }

  /** Within one line, a `>` ends a match exactly when it lies before the line end. */
  lemma MatchWithinLine(s: string, p: nat, q: int)
    requires p < |s| && s[p] == '<' && p < q < |s| && s[q] == '>'
    ensures AngleMatch(s, p, q) <==> q <= LineEnd(s, p + 1)
  {
    var e := LineEnd(s, p + 1);
    if q <= e {
      forall k | p + 1 <= k < q ensures s[k] != '\n' {
        assert s[k] == s[p + 1..e][k - p - 1];
      }
    } else {
      assert s[p + 1..q][e - p - 1] == '\n';
    }
  }

  lemma {:induction false} CaptureFromMeaning(s: string, p: nat)
    requires forall p', q :: 0 <= p' < p && AngleMatch(s, p', q) ==> false
    ensures CaptureFrom(s, p).None? <==> forall p', q :: !AngleMatch(s, p', q)
    ensures CaptureFrom(s, p).Some? ==> exists p', q :: (AngleMatch(s, p', q)
      && CaptureFrom(s, p).value == s[p' + 1..q]
      && (forall p'', q' :: AngleMatch(s, p'', q') ==> p' <= p'')
      && (forall q' :: AngleMatch(s, p', q') ==> q' <= q))
    decreases |s| - p
  {
    if p >= |s| {
      forall p', q ensures !AngleMatch(s, p', q) {
      }
    } else if s[p] == '<' {
      var e := LineEnd(s, p + 1);
      LastGtMeaning(s, p + 1, e);
      match LastGt(s, p + 1, e)
      case Some(q) =>
        MatchWithinLine(s, p, q);
        assert AngleMatch(s, p, q);
        forall p'', q' | AngleMatch(s, p'', q') ensures p <= p'' {
          if p'' < p { assert false; }
        }
        forall q' | AngleMatch(s, p, q') ensures q' <= q {
          MatchWithinLine(s, p, q');
        }
      case None =>
        forall q | AngleMatch(s, p, q) ensures false {
          MatchWithinLine(s, p, q);
        }
        CaptureFromMeaning(s, p + 1);
    } else {
      CaptureFromMeaning(s, p + 1);
    }
  }

  /** The capture is `None` exactly when there is no match at all; otherwise
      it runs from the leftmost `<` that starts a match to the last `>` that
      ends one. */
  lemma AngleCaptureMeaning(s: string)
    ensures AngleCapture(s).None? <==> forall p, q :: !AngleMatch(s, p, q)
    ensures AngleCapture(s).Some? ==> exists p, q :: (AngleMatch(s, p, q)
      && AngleCapture(s).value == s[p + 1..q]
      && (forall p', q' :: AngleMatch(s, p', q') ==> p <= p')
      && (forall q' :: AngleMatch(s, p, q') ==> q' <= q))
  {
    CaptureFromMeaning(s, 0);
  }

  // ----- the next page -----

  datatype NextPage =
    | LastPage               // no header, or no entry with rel=...next
    | NextAt(url: string)    // the URL to request next
    | NoUrlIn(entry: string) // an entry matched but holds no <...>: `nil[1]` raises

  /** What `api_call` makes of the `Link` header of a page. */
  function NextPageOf(link: Option<string>): NextPage {
    match link
    case None => LastPage
    case Some(header) =>
      match FirstRelNext(Split(header))
      case None => LastPage
      case Some(entry) =>
        match AngleCapture(entry)
        case None => NoUrlIn(entry)
        case Some(url) => NextAt(url)
  }

  lemma {:induction false} SplitAllPlain(a: string)
    requires ',' !in a
    ensures SplitAll(a) == [a]
  {
    if a != [] {
      SplitAllPlain(a[1..]);
      assert a == [a[0]] + a[1..];
    }
  }

  lemma {:induction false} SplitAllAtComma(a: string, rest: string)
    requires ',' !in a
    ensures SplitAll(a + [','] + rest) == [a] + SplitAll(rest)
  {
    if a == [] {
      assert a + [','] + rest == [','] + rest;
    } else {
      var s := a + [','] + rest;
      SplitAllAtComma(a[1..], rest);
      assert s[1..] == a[1..] + [','] + rest;
      assert s[0] == a[0] && s[0] != ',';
      var tail := SplitAll(s[1..]);
      assert tail == [a[1..]] + SplitAll(rest);
      assert SplitAll(s) == [[a[0]] + tail[0]] + tail[1..];
      assert [a[0]] + a[1..] == a;
    }
  }

  /** The header GitHub sends on a page that has a successor,
      `<next>; rel="next", <last>; rel="last"`, leads to `next`. */
  lemma GitHubHeaderLeadsToNext(next: string, last: string, header: string)
    requires ',' !in next && '<' !in next && '>' !in next && '\n' !in next
    requires ',' !in last
    requires header == "<" + next + ">; rel=\"next\", <" + last + ">; rel=\"last\""
    ensures NextPageOf(Some(header)) == NextAt(next)
  {
    var e1 := "<" + next + ">; rel=\"next\"";
    var e2 := " <" + last + ">; rel=\"last\"";
    assert header == e1 + [','] + e2;
    assert ',' !in e1 && ',' !in e2;
    SplitAllAtComma(e1, e2);
    SplitAllPlain(e2);
    assert Split(header) == [e1, e2];
    EntryIsRelNext(next, e1);
    assert FirstRelNext([e1, e2]) == Some(e1);
    EntryCapture(next, e1);
  }

  lemma EntryIsRelNext(next: string, e1: string)
    requires e1 == "<" + next + ">; rel=\"next\""
    ensures RelNext(e1)
  {
    var n := |next|;
    assert e1[n + 4..n + 8] == "rel=";
    assert e1[n + 9..n + 13] == "next";
    assert e1[n + 8..n + 9] == "\"";
    assert OccursAt(e1, "rel=", n + 4) && OccursAt(e1, "next", n + 9);
  }

  lemma EntryCapture(next: string, e1: string)
    requires '<' !in next && '>' !in next && '\n' !in next
    requires e1 == "<" + next + ">; rel=\"next\""
    ensures AngleCapture(e1) == Some(next)
  {
    var n := |next|;
    assert e1[1..n + 1] == next;
    assert e1[n + 1..] == ">; rel=\"next\"";
    assert '\n' !in e1[1..];
    var e := LineEnd(e1, 1);
    assert e == |e1|;
    assert e1[n + 1] == '>';
    assert forall k :: n + 1 < k < |e1| ==> e1[k] != '>' by {
      forall k | n + 1 < k < |e1| ensures e1[k] != '>' {
        assert e1[k] == e1[n + 1..][k - n - 1];
      }
    }
    LastGtMeaning(e1, 1, e);
    assert LastGt(e1, 1, e) == Some(n + 1);
  }
}
