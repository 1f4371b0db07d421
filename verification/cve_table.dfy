/** The CVE pages: for each major version in IdVersions, the CVE template
    is copied line by line with "{ID-VERSION}" filled in, and the line
    holding SECTION-CVETABLE is replaced by one bullet per listed release of
    that version's releases.json, each followed by one bullet per CVE.

    Every CVE bullet costs one issue lookup. The answers of the issue
    search over the whole run are an input stream `server`: the n-th request
    sent during the run receives `server(n)`. A computation that sends
    requests returns the number of the next unsent one. */
module CveTable {
  import opened Basics
  import opened Text
  import opened Dates
  import opened Output
  import opened CveLookup

  /** The major versions a CVE page is generated for, in order. */
  const IdVersions: seq<nat> := [8, 9]

  const CveTablePlaceholder: string := "SECTION-CVETABLE"
  const IdVersionPlaceholder: string := "{ID-VERSION}"

  // ---------------------------------------------------------------- releases.json

  /** One element of `cve-list`; `cveId` is None when `cve-id` is absent. */
  datatype CveEntry = CveEntry(cveId: Option<string>)

  /** One element of `releases`; an absent field is None. */
  datatype CveRelease = CveRelease(
    releaseVersion: Option<string>,
    releaseDate: Option<DateText>,
    cveList: Option<seq<CveEntry>>)

  /** A releases.json document; `releases` is None when the section is absent. */
  datatype CveDocument = CveDocument(releases: Option<seq<CveRelease>>)

  /** The exceptions that stop a CVE page: the missing releases section,
      DateTime.Parse rejecting a release date, and a failed issue lookup.
      The lookup's own exception passes through unchanged; the model tags
      it with the CVE id it was for, which the exception itself does not
      carry. */
  datatype CveFailure =
    | ReleasesSectionMissing
    | BadReleaseDate(text: string)
    | LookupFailed(cveId: string, error: LookupError)

  /** The issue-search answers of the run, by request number. */
  type Server = nat -> Exchange

  /** The answers a lookup starting at request `start` can receive. */
  function Window(server: Server, start: nat): (w: seq<Exchange>)
    ensures |w| == MaxRetries
    ensures forall k :: 0 <= k < MaxRetries ==> w[k] == server(start + k)
  {
    seq(MaxRetries, k requires 0 <= k < MaxRetries => server(start + k))
  }

  /** The lookup that starts at request n, for every n. */
  type Lookups = nat -> Lookup

  function LookupsOf(server: Server): Lookups {
    (n: nat) => Resolve(Window(server, n))
  }

  /** Every lookup sends at least one request and at most MaxRetries. */
  ghost predicate Bounded(lookups: Lookups) {
    forall n: nat :: 1 <= lookups(n).requests <= MaxRetries
  }

  lemma ServerBounded(server: Server)
    ensures Bounded(LookupsOf(server))
  {
    forall n: nat ensures 1 <= LookupsOf(server)(n).requests <= MaxRetries {
      assert LookupsOf(server)(n) == Resolve(Window(server, n));
    }
  }

  /** What has been written so far, and the number of the next request. */
  datatype Progress = Progress(out: Emission<CveFailure>, next: nat)

  /** `first`, then `rest` (which starts where `first` stopped) unless
      `first` threw. */
  function Chain(first: Progress, rest: Progress): Progress {
    if first.out.Failed() then first else Progress(first.out.Then(rest.out), rest.next)
  }

  /** Lines `ws` written in front of `p`. */
  function Prefixed(ws: seq<string>, p: Progress): Progress {
    Progress(Lines<CveFailure>(ws).Then(p.out), p.next)
  }

  // ---------------------------------------------------------------- the table

  /** A release is listed unless its version mentions "rc" or "preview". */
  predicate Listed(version: string) {
    !Contains(version, "rc") && !Contains(version, "preview")
  }

  /** The bullet of a listed release; `monthYear` is the "MMMM yyyy" format. */
  function ReleaseLine(version: string, date: Instant, monthYear: Instant -> string): string {
    "- " + version + " (" + monthYear(date) + ")"
  }

  /** The bullet of a CVE; a missing issue URL prints as nothing. */
  function CveLine(id: string, issue: Issue): string {
    "  - [" + id + " | " + issue.header + "](" + issue.url.GetOr("") + ")"
  }

  /** The bullets of the CVEs with these identifiers, looking each one up
      in turn from request `next` on and stopping at the first failed lookup. */
  function IdLines(ids: seq<string>, lookups: Lookups, next: nat): (p: Progress)
    ensures next <= p.next
    decreases |ids|
  {
    if ids == [] then Progress(Lines([]), next)
    else
      var l := lookups(next);
      var after := next + l.requests;
      match l.outcome
      case Failed(e) => Progress(Throw(LookupFailed(ids[0], e)), after)
      case Found(items) =>
        Prefixed([CveLine(ids[0], Classify(items))], IdLines(ids[1..], lookups, after))
  }

  /** The identifiers of a CVE list, skipping entries without one. */
  function Ids(cves: seq<CveEntry>): (ids: seq<string>)
    ensures |ids| <= |cves|
    decreases |cves|
  {
    if cves == [] then []
    else (if cves[0].cveId.Some? then [cves[0].cveId.value] else []) + Ids(cves[1..])
  }

  /** The inner loop of the table over one release's `cve-list`. */
  function CveLines(cves: seq<CveEntry>, lookups: Lookups, next: nat): Progress
    decreases |cves|
  {
    if cves == [] then Progress(Lines([]), next)
    else
      match cves[0].cveId
      case None => CveLines(cves[1..], lookups, next)
      case Some(id) =>
        var l := lookups(next);
        var after := next + l.requests;
        match l.outcome
        case Failed(e) => Progress(Throw(LookupFailed(id, e)), after)
        case Found(items) =>
          Prefixed([CveLine(id, Classify(items))], CveLines(cves[1..], lookups, after))
  }

  /** The output for one release: nothing for an incomplete or unlisted
      one; for a listed one its bullet, then its CVE bullets, unless the
      date does not parse. */
  function ReleaseBlock(r: CveRelease, lookups: Lookups, next: nat, monthYear: Instant -> string): Progress {
    if r.releaseVersion.None? || r.releaseDate.None? || r.cveList.None? then Progress(Lines([]), next)
    else if !Listed(r.releaseVersion.value) then Progress(Lines([]), next)
    else
      match r.releaseDate.value.parsed
      case None => Progress(Throw(BadReleaseDate(r.releaseDate.value.text)), next)
      case Some(date) =>
        Prefixed([ReleaseLine(r.releaseVersion.value, date, monthYear)], CveLines(r.cveList.value, lookups, next))
  }

  /** The outer loop of the table over `releases`. */
  function ReleaseBlocks(rs: seq<CveRelease>, lookups: Lookups, next: nat, monthYear: Instant -> string): Progress
    decreases |rs|
  {
    if rs == [] then Progress(Lines([]), next)
    else
      var first := ReleaseBlock(rs[0], lookups, next, monthYear);
      if first.out.Failed() then first
      else Chain(first, ReleaseBlocks(rs[1..], lookups, first.next, monthYear))
  }

  /** CreateCveTable. */
  function CveTableOutput(doc: CveDocument, lookups: Lookups, next: nat, monthYear: Instant -> string): Progress {
    match doc.releases
    case None => Progress(Throw(ReleasesSectionMissing), next)
    case Some(rs) => ReleaseBlocks(rs, lookups, next, monthYear)
  }

  // ---------------------------------------------------------------- the page

  /** A template line with the version filled in. */
  function Filled(line: string, idVersion: nat): string {
    Replace(line, IdVersionPlaceholder, NatToString(idVersion))
  }

  /** The template loop of one CVE page: each filled-in line that starts
      with the table placeholder becomes the table, every other one is
      written as it is. */
  function ExpandCve(lines: seq<string>, idVersion: nat, doc: CveDocument, lookups: Lookups, next: nat,
                     monthYear: Instant -> string): Progress
    decreases |lines|
  {
    if lines == [] then Progress(Lines([]), next)
    else
      var line := Filled(lines[0], idVersion);
      var first :=
        if StartsWith(line, CveTablePlaceholder) then CveTableOutput(doc, lookups, next, monthYear)
        else Progress(Lines([line]), next);
      if first.out.Failed() then first
      else Chain(first, ExpandCve(lines[1..], idVersion, doc, lookups, first.next, monthYear))
  }

  /** A written page: its file name and content. */
  datatype OutputFile = OutputFile(name: string, content: Emission<CveFailure>)

  /** What one version produces: a file, or none when the template or the
      JSON file is missing (the FileNotFoundException is only logged). */
  datatype PageResult = PageResult(file: Option<OutputFile>, next: nat)

  function CvePage(idVersion: nat, template: Option<seq<string>>, doc: Option<CveDocument>,
                   lookups: Lookups, next: nat, monthYear: Instant -> string): PageResult {
    if template.None? || doc.None? then PageResult(None, next)
    else
      var p := ExpandCve(template.value, idVersion, doc.value, lookups, next, monthYear);
      PageResult(Some(OutputFile("cve" + NatToString(idVersion) + ".md", p.out)), p.next)
  }

  /** UpdateFilesAsync: the pages of `versions` in order; `docs` holds the
      releases.json documents that exist, by major version. */
  function CvePages(versions: seq<nat>, template: Option<seq<string>>, docs: map<nat, CveDocument>,
                    lookups: Lookups, next: nat, monthYear: Instant -> string): seq<OutputFile>
    decreases |versions|
  {
    if versions == [] then []
    else
      var v := versions[0];
      var page := CvePage(v, template, if v in docs then Some(docs[v]) else None, lookups, next, monthYear);
      (if page.file.Some? then [page.file.value] else [])
        + CvePages(versions[1..], template, docs, lookups, page.next, monthYear)
  }

  function UpdateCveFiles(template: Option<seq<string>>, docs: map<nat, CveDocument>, server: Server,
                          monthYear: Instant -> string): seq<OutputFile> {
    CvePages(IdVersions, template, docs, LookupsOf(server), 0, monthYear)
  }

  // ---------------------------------------------------------------- the loops as written

  lemma PrefixedPrefixed(ws: seq<string>, vs: seq<string>, p: Progress)
    ensures Prefixed(ws, Prefixed(vs, p)) == Prefixed(ws + vs, p)
  {
    assert ws + (vs + p.out.lines) == (ws + vs) + p.out.lines;
  }

  /** One turn of the inner loop at an entry without an identifier. */
  lemma SkipStep(whole: Progress, written: seq<string>, cves: seq<CveEntry>, i: nat, lookups: Lookups, cursor: nat)
    requires i < |cves| && cves[i].cveId.None?
    requires whole == Prefixed(written, CveLines(cves[i..], lookups, cursor))
    ensures whole == Prefixed(written, CveLines(cves[i + 1..], lookups, cursor))
  {
    assert cves[i..][0] == cves[i] && cves[i..][1..] == cves[i + 1..];
  }

  /** One turn of the inner loop at an entry whose lookup fails. */
  lemma FailStep(whole: Progress, written: seq<string>, cves: seq<CveEntry>, i: nat, lookups: Lookups, cursor: nat, l: Lookup)
    requires i < |cves| && cves[i].cveId.Some? && l == lookups(cursor) && l.outcome.Failed?
    requires whole == Prefixed(written, CveLines(cves[i..], lookups, cursor))
    ensures whole == Progress(Emission(written, Some(LookupFailed(cves[i].cveId.value, l.outcome.error))), cursor + l.requests)
  {
    assert cves[i..][0] == cves[i];
    assert written + [] == written;
  }

  /** One turn of the inner loop at an entry whose lookup succeeds. */
  lemma FoundStep(whole: Progress, written: seq<string>, cves: seq<CveEntry>, i: nat, lookups: Lookups, cursor: nat, l: Lookup,
                  line: string, after: nat)
    requires i < |cves| && cves[i].cveId.Some? && l == lookups(cursor) && l.outcome.Found?
    requires line == CveLine(cves[i].cveId.value, Classify(l.outcome.items)) && after == cursor + l.requests
    requires whole == Prefixed(written, CveLines(cves[i..], lookups, cursor))
    ensures whole == Prefixed(written + [line], CveLines(cves[i + 1..], lookups, after))
  {
    assert cves[i..][0] == cves[i] && cves[i..][1..] == cves[i + 1..];
    PrefixedPrefixed(written, [line], CveLines(cves[i + 1..], lookups, after));
  }

  /** The lookup of request window `n`, as the retry loop performs it. */
  method LookUp(server: Server, n: nat) returns (l: Lookup)
    ensures l == LookupsOf(server)(n)
  {
    l := GetCveIssueUrl(Window(server, n));
  }

  /** The inner loop of CreateCveTable as the source writes it: one lookup
      per CVE with an identifier, one line per successful lookup. */
  method WriteCveLines(cves: seq<CveEntry>, server: Server, next: nat) returns (p: Progress)
    ensures p == CveLines(cves, LookupsOf(server), next)
  {
    ghost var lookups := LookupsOf(server);
    ghost var whole := CveLines(cves, lookups, next);
    var written: seq<string> := [];
    var cursor: nat := next;
    var i := 0;
    assert cves[0..] == cves;
    while i < |cves|
      invariant 0 <= i <= |cves|
      invariant whole == Prefixed(written, CveLines(cves[i..], lookups, cursor))
    {
      if cves[i].cveId.None? {
        SkipStep(whole, written, cves, i, lookups, cursor);
      } else {
        var l := LookUp(server, cursor);
        if l.outcome.Failed? {
          FailStep(whole, written, cves, i, lookups, cursor, l);
          return Progress(Emission(written, Some(LookupFailed(cves[i].cveId.value, l.outcome.error))), cursor + l.requests);
        }
        var line := CveLine(cves[i].cveId.value, Classify(l.outcome.items));
        var after := cursor + l.requests;
        FoundStep(whole, written, cves, i, lookups, cursor, l, line, after);
        written := written + [line];
        cursor := after;
      }
      i := i + 1;
    }
    assert written + [] == written;
    p := Progress(Lines(written), cursor);
  }

  // ---------------------------------------------------------------- properties of the table

  /** CVEs without an identifier are skipped: they cost no request and
      write nothing, and the others are handled as the list of their
      identifiers. */
  lemma {:induction false} CveLinesAreIdLines(cves: seq<CveEntry>, lookups: Lookups, next: nat)
    ensures CveLines(cves, lookups, next) == IdLines(Ids(cves), lookups, next)
    decreases |cves|
  {
    if cves != [] {
      var ids := Ids(cves);
      match cves[0].cveId
      case None =>
        assert ids == Ids(cves[1..]);
        CveLinesAreIdLines(cves[1..], lookups, next);
      case Some(id) =>
        assert ids == [id] + Ids(cves[1..]);
        assert ids[0] == id && ids[1..] == Ids(cves[1..]);
        var l := lookups(next);
        CveLinesAreIdLines(cves[1..], lookups, next + l.requests);
    }
  }

  /** The prefix every bullet of CVE `id` starts with. */
  function CvePrefix(id: string): string {
    "  - [" + id + " | "
  }

  lemma CveLineStarts(id: string, issue: Issue)
    ensures StartsWith(CveLine(id, issue), CvePrefix(id))
  {
    var tail := issue.header + "](" + issue.url.GetOr("") + ")";
    assert CveLine(id, issue) == CvePrefix(id) + tail;
    StartsWithConcat(CvePrefix(id), tail);
  }

  /** Each of `lines` is the bullet of the identifier at the same position. */
  predicate NamedLines(lines: seq<string>, ids: seq<string>) {
    |lines| <= |ids| && forall k :: 0 <= k < |lines| ==> StartsWith(lines[k], CvePrefix(ids[k]))
  }

  lemma ConsNames(line: string, rest: seq<string>, ids: seq<string>)
    requires |ids| > 0 && StartsWith(line, CvePrefix(ids[0])) && NamedLines(rest, ids[1..])
    ensures NamedLines([line] + rest, ids)
  {
    forall k | 0 < k < |[line] + rest| ensures StartsWith(([line] + rest)[k], CvePrefix(ids[k])) {
      assert ([line] + rest)[k] == rest[k - 1] && ids[1..][k - 1] == ids[k];
    }
  }

  /** One bullet per identifier, in order, each naming its CVE. */
  lemma {:induction false} IdLinesNames(ids: seq<string>, lookups: Lookups, next: nat)
    ensures NamedLines(IdLines(ids, lookups, next).out.lines, ids)
    decreases |ids|
  {
    if ids != [] {
      var l := lookups(next);
      if l.outcome.Found? {
        var line := CveLine(ids[0], Classify(l.outcome.items));
        var rest := IdLines(ids[1..], lookups, next + l.requests).out.lines;
        assert IdLines(ids, lookups, next).out.lines == [line] + rest;
        assert StartsWith(line, CvePrefix(ids[0])) by {
          CveLineStarts(ids[0], Classify(l.outcome.items));
        }
        IdLinesNames(ids[1..], lookups, next + l.requests);
        ConsNames(line, rest, ids);
      }
    }
  }

  /** The request the `k`-th lookup of a list starts at, when the list
      starts at request `next`: each lookup begins where the previous one
      stopped. */
  function RequestAt(lookups: Lookups, next: nat, k: nat): nat
    decreases k
  {
    if k == 0 then next else RequestAt(lookups, next + lookups(next).requests, k - 1)
  }

  /** The bullet at position `k` is the one of identifier `k`, made from
      the issues that identifier's own lookup found. */
  predicate LookedUpLine(lines: seq<string>, ids: seq<string>, lookups: Lookups, next: nat, k: nat)
    requires k < |lines| && k < |ids|
  {
    var l := lookups(RequestAt(lookups, next, k));
    l.outcome.Found? && lines[k] == CveLine(ids[k], Classify(l.outcome.items))
  }

  predicate LookedUpLines(lines: seq<string>, ids: seq<string>, lookups: Lookups, next: nat) {
    |lines| <= |ids| && forall k :: 0 <= k < |lines| ==> LookedUpLine(lines, ids, lookups, next, k)
  }

  lemma ConsLookedUp(line: string, rest: seq<string>, ids: seq<string>, lookups: Lookups, next: nat)
    requires |ids| > 0 && lookups(next).outcome.Found?
    requires line == CveLine(ids[0], Classify(lookups(next).outcome.items))
    requires LookedUpLines(rest, ids[1..], lookups, next + lookups(next).requests)
    ensures LookedUpLines([line] + rest, ids, lookups, next)
  {
    var after := next + lookups(next).requests;
    forall k | 0 <= k < |[line] + rest| ensures LookedUpLine([line] + rest, ids, lookups, next, k) {
      if k > 0 {
        assert LookedUpLine(rest, ids[1..], lookups, after, k - 1);
        assert ([line] + rest)[k] == rest[k - 1] && ids[1..][k - 1] == ids[k];
        assert RequestAt(lookups, next, k) == RequestAt(lookups, after, k - 1);
      }
    }
  }

  /** Bullet `k` is CVE `k`'s line built from what the `k`-th lookup,
      at the request the earlier lookups left off, found. */
  lemma {:induction false} IdLinesBullets(ids: seq<string>, lookups: Lookups, next: nat)
    ensures LookedUpLines(IdLines(ids, lookups, next).out.lines, ids, lookups, next)
    decreases |ids|
  {
    if ids != [] {
      var l := lookups(next);
      if l.outcome.Found? {
        var line := CveLine(ids[0], Classify(l.outcome.items));
        var rest := IdLines(ids[1..], lookups, next + l.requests).out.lines;
        assert IdLines(ids, lookups, next).out.lines == [line] + rest;
        IdLinesBullets(ids[1..], lookups, next + l.requests);
        ConsLookedUp(line, rest, ids, lookups, next);
      }
    }
  }

  /** The list is complete exactly when no lookup failed; a failed lookup
      stops it right before the bullet of the CVE it was for, and what is
      thrown is that lookup's own error. */
  lemma {:induction false} IdLinesStops(ids: seq<string>, lookups: Lookups, next: nat)
    ensures var p := IdLines(ids, lookups, next);
      && |p.out.lines| <= |ids|
      && (p.out.Failed() <==> |p.out.lines| < |ids|)
      && (p.out.Failed() ==>
            var l := lookups(RequestAt(lookups, next, |p.out.lines|));
            l.outcome.Failed? && p.out.failure.value == LookupFailed(ids[|p.out.lines|], l.outcome.error))
    decreases |ids|
  {
    IdLinesCount(ids, lookups, next);
    IdLinesThrown(ids, lookups, next);
  }

  /** The list has a bullet for every identifier unless it threw. */
  lemma {:induction false} IdLinesCount(ids: seq<string>, lookups: Lookups, next: nat)
    ensures var p := IdLines(ids, lookups, next);
      |p.out.lines| <= |ids| && (p.out.Failed() <==> |p.out.lines| < |ids|)
    decreases |ids|
  {
    if ids != [] {
      var l := lookups(next);
      if l.outcome.Found? {
        var line := CveLine(ids[0], Classify(l.outcome.items));
        var rest := IdLines(ids[1..], lookups, next + l.requests).out;
        assert IdLines(ids, lookups, next).out == Emission([line] + rest.lines, rest.failure);
        IdLinesCount(ids[1..], lookups, next + l.requests);
      } else {
        assert IdLines(ids, lookups, next).out == Emission([], Some(LookupFailed(ids[0], l.outcome.error)));
      }
    }
  }

  /** A list that threw stopped at a failed lookup and threw its error. */
  lemma {:induction false} IdLinesThrown(ids: seq<string>, lookups: Lookups, next: nat)
    ensures var p := IdLines(ids, lookups, next);
      p.out.Failed() ==>
        && |p.out.lines| < |ids|
        && var l := lookups(RequestAt(lookups, next, |p.out.lines|));
          l.outcome.Failed? && p.out.failure.value == LookupFailed(ids[|p.out.lines|], l.outcome.error)
    decreases |ids|
  {
    if ids != [] {
      var l := lookups(next);
      var after := next + l.requests;
      if l.outcome.Found? {
        var line := CveLine(ids[0], Classify(l.outcome.items));
        var rest := IdLines(ids[1..], lookups, after).out;
        assert IdLines(ids, lookups, next).out == Emission([line] + rest.lines, rest.failure);
        IdLinesThrown(ids[1..], lookups, after);
        if rest.Failed() {
          var m := |rest.lines|;
          assert |[line] + rest.lines| == m + 1;
          assert RequestAt(lookups, next, m + 1) == RequestAt(lookups, after, m);
          assert ids[1..][m] == ids[m + 1];
        }
      } else {
        assert IdLines(ids, lookups, next).out == Emission([], Some(LookupFailed(ids[0], l.outcome.error)));
        assert RequestAt(lookups, next, 0) == next;
      }
    }
  }

  /** Every identifier costs between one and MaxRetries requests; a list
      that throws has cost at most that much. */
  lemma {:induction false} IdLinesRequests(ids: seq<string>, lookups: Lookups, next: nat)
    requires Bounded(lookups)
    ensures var p := IdLines(ids, lookups, next);
      && p.next <= next + MaxRetries * |ids|
      && (!p.out.Failed() ==> next + |ids| <= p.next)
    decreases |ids|
  {
    if ids != [] {
      var l := lookups(next);
      if l.outcome.Found? {
        IdLinesRequests(ids[1..], lookups, next + l.requests);
      }
    }
  }

  /** The releases that get a bullet: complete and not "rc" or "preview". */
  predicate Shown(r: CveRelease) {
    r.releaseVersion.Some? && r.releaseDate.Some? && r.cveList.Some? && Listed(r.releaseVersion.value)
  }

  function Kept(rs: seq<CveRelease>): (kept: seq<CveRelease>)
    ensures |kept| <= |rs|
    ensures forall k :: 0 <= k < |kept| ==> Shown(kept[k])
    decreases |rs|
  {
    if rs == [] then [] else (if Shown(rs[0]) then [rs[0]] else []) + Kept(rs[1..])
  }

  /** Incomplete and unlisted releases contribute nothing to the table:
      no line, no request, and no date parsing (so no exception either). */
  lemma {:induction false} ReleaseBlocksKept(rs: seq<CveRelease>, lookups: Lookups, next: nat, monthYear: Instant -> string)
    ensures ReleaseBlocks(rs, lookups, next, monthYear) == ReleaseBlocks(Kept(rs), lookups, next, monthYear)
    decreases |rs|
  {
    if rs != [] {
      var first := ReleaseBlock(rs[0], lookups, next, monthYear);
      if !Shown(rs[0]) {
        assert first == Progress(Lines([]), next);
        assert Kept(rs) == Kept(rs[1..]);
        ThenEmpty(ReleaseBlocks(rs[1..], lookups, next, monthYear).out);
        ReleaseBlocksKept(rs[1..], lookups, next, monthYear);
      } else {
        assert Kept(rs) == [rs[0]] + Kept(rs[1..]);
        assert Kept(rs)[0] == rs[0] && Kept(rs)[1..] == Kept(rs[1..]);
        if !first.out.Failed() {
          ReleaseBlocksKept(rs[1..], lookups, first.next, monthYear);
        }
      }
    }
  }

  /** A shown release writes its bullet and then one bullet per CVE with an
      identifier, unless its date does not parse, which throws. */
  lemma ShownRelease(r: CveRelease, lookups: Lookups, next: nat, monthYear: Instant -> string)
    requires Shown(r)
    ensures var b := ReleaseBlock(r, lookups, next, monthYear);
      match r.releaseDate.value.parsed
      case None => b == Progress(Throw(BadReleaseDate(r.releaseDate.value.text)), next)
      case Some(date) =>
        b == Prefixed([ReleaseLine(r.releaseVersion.value, date, monthYear)],
                      IdLines(Ids(r.cveList.value), lookups, next))
  {
    CveLinesAreIdLines(r.cveList.value, lookups, next);
  }

  /** Without a releases section, a page with a table line throws at the
      first such line. */
  lemma {:induction false} PageFailsWithoutReleases(lines: seq<string>, idVersion: nat, doc: CveDocument,
                                                    lookups: Lookups, next: nat, monthYear: Instant -> string)
    requires doc.releases.None?
    requires exists i :: 0 <= i < |lines| && StartsWith(Filled(lines[i], idVersion), CveTablePlaceholder)
    ensures ExpandCve(lines, idVersion, doc, lookups, next, monthYear).out.failure == Some(ReleasesSectionMissing)
    decreases |lines|
  {
    if !StartsWith(Filled(lines[0], idVersion), CveTablePlaceholder) {
      var i :| 0 <= i < |lines| && StartsWith(Filled(lines[i], idVersion), CveTablePlaceholder);
      assert i > 0 && lines[1..][i - 1] == lines[i];
      PageFailsWithoutReleases(lines[1..], idVersion, doc, lookups, next, monthYear);
    }
  }

  /** The version is filled in after the placeholder test's prefix, so a
      line starting with SECTION-CVETABLE is always a table line. */
  lemma FilledKeepsPlaceholder(line: string, idVersion: nat)
    requires StartsWith(line, CveTablePlaceholder)
    ensures StartsWith(Filled(line, idVersion), CveTablePlaceholder)
  {
    var d := CveTablePlaceholder;
    var t := line[|d|..];
    assert line == d + t;
    assert '{' !in d;
    ReplaceSkipsPrefix(d, t, IdVersionPlaceholder, NatToString(idVersion));
    StartsWithConcat(d, Replace(t, IdVersionPlaceholder, NatToString(idVersion)));
  }

  /** The template lines with the version filled in. */
  function FilledAll(lines: seq<string>, idVersion: nat): (r: seq<string>)
    ensures |r| == |lines| && forall i :: 0 <= i < |lines| ==> r[i] == Filled(lines[i], idVersion)
  {
    seq(|lines|, i requires 0 <= i < |lines| => Filled(lines[i], idVersion))
  }

  /** A page without a table line is the template with the version filled
      in, and sends no request. */
  lemma {:induction false} ExpandCveVerbatim(lines: seq<string>, idVersion: nat, doc: CveDocument,
                                             lookups: Lookups, next: nat, monthYear: Instant -> string)
    requires forall i :: 0 <= i < |lines| ==> !StartsWith(Filled(lines[i], idVersion), CveTablePlaceholder)
    ensures ExpandCve(lines, idVersion, doc, lookups, next, monthYear) == Progress(Lines(FilledAll(lines, idVersion)), next)
    decreases |lines|
  {
    if lines != [] {
      var line := Filled(lines[0], idVersion);
      assert forall i :: 0 <= i < |lines[1..]| ==> lines[1..][i] == lines[i + 1];
      ExpandCveVerbatim(lines[1..], idVersion, doc, lookups, next, monthYear);
      PlainStep(lines, idVersion, doc, lookups, next, monthYear);
      assert FilledAll(lines, idVersion) == [line] + FilledAll(lines[1..], idVersion);
    }
  }

  /** A first line that is not the table line is written as it is, in
      front of the rest of the page. */
  lemma PlainStep(lines: seq<string>, idVersion: nat, doc: CveDocument, lookups: Lookups, next: nat,
                  monthYear: Instant -> string)
    requires lines != [] && !StartsWith(Filled(lines[0], idVersion), CveTablePlaceholder)
    ensures ExpandCve(lines, idVersion, doc, lookups, next, monthYear)
         == Prefixed([Filled(lines[0], idVersion)], ExpandCve(lines[1..], idVersion, doc, lookups, next, monthYear))
  {
  }

  /** A first line that is the table line becomes the table, and the rest
      of the page follows from the request the table stopped at, unless
      the table threw. */
  lemma TableStep(lines: seq<string>, idVersion: nat, doc: CveDocument, lookups: Lookups, next: nat,
                  monthYear: Instant -> string)
    requires lines != [] && StartsWith(Filled(lines[0], idVersion), CveTablePlaceholder)
    ensures var table := CveTableOutput(doc, lookups, next, monthYear);
      ExpandCve(lines, idVersion, doc, lookups, next, monthYear)
        == Chain(table, ExpandCve(lines[1..], idVersion, doc, lookups, table.next, monthYear))
  {
  }

  /** A line with neither placeholder is written unchanged. */
  lemma PlainLine(line: string, idVersion: nat)
    requires !Contains(line, IdVersionPlaceholder) && !StartsWith(line, CveTablePlaceholder)
    ensures Filled(line, idVersion) == line && !StartsWith(Filled(line, idVersion), CveTablePlaceholder)
  {
  }

  // ---------------------------------------------------------------- properties of the pages

  /** The names of the files a run writes: one per version whose
      releases.json exists, in order, and none without a template. */
  function PageNames(versions: seq<nat>, template: Option<seq<string>>, docs: map<nat, CveDocument>): seq<string>
    decreases |versions|
  {
    if versions == [] || template.None? then []
    else (if versions[0] in docs then ["cve" + NatToString(versions[0]) + ".md"] else [])
         + PageNames(versions[1..], template, docs)
  }

  function Names(files: seq<OutputFile>): seq<string>
    decreases |files|
  {
    if files == [] then [] else [files[0].name] + Names(files[1..])
  }

  lemma NamesConcat(a: seq<OutputFile>, b: seq<OutputFile>)
    ensures Names(a + b) == Names(a) + Names(b)
    decreases |a|
  {
    if a != [] {
      assert (a + b)[0] == a[0] && (a + b)[1..] == a[1..] + b;
      NamesConcat(a[1..], b);
      assert Names(a + b) == [a[0].name] + (Names(a[1..]) + Names(b));
    } else {
      assert a + b == b;
    }
  }

  lemma {:induction false} CvePagesNames(versions: seq<nat>, template: Option<seq<string>>, docs: map<nat, CveDocument>,
                                         lookups: Lookups, next: nat, monthYear: Instant -> string)
    ensures Names(CvePages(versions, template, docs, lookups, next, monthYear)) == PageNames(versions, template, docs)
    decreases |versions|
  {
    if versions != [] {
      var v := versions[0];
      var page := CvePage(v, template, if v in docs then Some(docs[v]) else None, lookups, next, monthYear);
      var head: seq<OutputFile> := if page.file.Some? then [page.file.value] else [];
      assert Names(head) == if template.Some? && v in docs then ["cve" + NatToString(v) + ".md"] else [];
      CvePagesNames(versions[1..], template, docs, lookups, page.next, monthYear);
      NamesConcat(head, CvePages(versions[1..], template, docs, lookups, page.next, monthYear));
    }
  }

  lemma IdPageNames(template: Option<seq<string>>, docs: map<nat, CveDocument>)
    ensures PageNames(IdVersions, template, docs)
         == if template.None? then []
            else (if 8 in docs then ["cve8.md"] else []) + (if 9 in docs then ["cve9.md"] else [])
  {
    if template.Some? {
      assert "cve" + NatToString(8) + ".md" == "cve8.md";
      assert "cve" + NatToString(9) + ".md" == "cve9.md";
      assert IdVersions[1..] == [9] && [9][1..] == [];
      assert PageNames([9], template, docs) == (if 9 in docs then ["cve9.md"] else []) + PageNames([], template, docs);
    }
  }

  /** A run writes cve8.md when releases.json of 8.0 exists and cve9.md
      when that of 9.0 does, and nothing without the template. */
  lemma UpdateCveFilesNames(template: Option<seq<string>>, docs: map<nat, CveDocument>, server: Server,
                            monthYear: Instant -> string)
    ensures Names(UpdateCveFiles(template, docs, server, monthYear))
         == if template.None? then []
            else (if 8 in docs then ["cve8.md"] else []) + (if 9 in docs then ["cve9.md"] else [])
  {
    CvePagesNames(IdVersions, template, docs, LookupsOf(server), 0, monthYear);
    IdPageNames(template, docs);
  }
}
