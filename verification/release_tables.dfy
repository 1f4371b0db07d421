/** The tables of supported and unsupported releases that the index pages
    are built from: two header lines, one row per release on that side of
    the current time, an empty line, then one link reference per such
    release. The dictionaries of launch dates and blog links are parameters,
    as in the source; `Known` holds the ones the generators pass. */
module ReleaseTables {
  import opened Basics
  import opened Text
  import opened Dates
  import opened Output
  import opened Releases

  // ---------------------------------------------------------------- dictionaries

  /** The dictionaries a table reads, keyed by channel. */
  datatype Catalog = Catalog(
    launchDates: map<Channel, Instant>,
    announcementLinks: map<Channel, string>,
    endOfSupportLinks: map<Channel, string>)

  /** KeyNotFoundException from a dictionary indexer; the exception names
      the key ChannelText(key). */
  datatype TableFailure = KeyNotFound(key: Channel)

  /** The dictionaries of the generators. */
  const Known: Catalog := Catalog(
    map[
      Channel(1, 0) := DateOf(2016, 6, 27), Channel(1, 1) := DateOf(2016, 11, 16),
      Channel(2, 0) := DateOf(2017, 8, 14), Channel(2, 1) := DateOf(2018, 5, 30),
      Channel(2, 2) := DateOf(2018, 12, 4), Channel(3, 0) := DateOf(2019, 9, 23),
      Channel(3, 1) := DateOf(2019, 12, 3), Channel(5, 0) := DateOf(2020, 11, 10),
      Channel(6, 0) := DateOf(2021, 11, 8), Channel(7, 0) := DateOf(2022, 11, 8),
      Channel(8, 0) := DateOf(2023, 11, 14), Channel(9, 0) := DateOf(2024, 11, 12)],
    map[
      Channel(1, 0) := "https://devblogs.microsoft.com/dotnet/announcing-net-core-1-0/",
      Channel(1, 1) := "https://devblogs.microsoft.com/dotnet/announcing-net-core-1-1/",
      Channel(2, 0) := "https://devblogs.microsoft.com/dotnet/announcing-net-core-2-0/",
      Channel(2, 1) := "https://devblogs.microsoft.com/dotnet/announcing-net-core-2-1/",
      Channel(2, 2) := "https://devblogs.microsoft.com/dotnet/announcing-net-core-2-2",
      Channel(3, 0) := "https://devblogs.microsoft.com/dotnet/announcing-net-core-3-0/",
      Channel(3, 1) := "https://devblogs.microsoft.com/dotnet/announcing-net-core-3-1/",
      Channel(5, 0) := "https://devblogs.microsoft.com/dotnet/announcing-net-5-0/",
      Channel(6, 0) := "https://devblogs.microsoft.com/dotnet/announcing-net-6/",
      Channel(7, 0) := "https://devblogs.microsoft.com/dotnet/announcing-dotnet-7/",
      Channel(8, 0) := "https://devblogs.microsoft.com/dotnet/announcing-dotnet-8/",
      Channel(9, 0) := "https://devblogs.microsoft.com/dotnet/announcing-dotnet-9/"],
    map[
      Channel(1, 0) := "https://devblogs.microsoft.com/dotnet/net-core-1-0-and-1-1-will-reach-end-of-life-on-june-27-2019/",
      Channel(1, 1) := "https://devblogs.microsoft.com/dotnet/net-core-1-0-and-1-1-will-reach-end-of-life-on-june-27-2019/",
      Channel(2, 0) := "https://devblogs.microsoft.com/dotnet/net-core-2-0-will-reach-end-of-life-on-september-1-2018/",
      Channel(2, 1) := "https://devblogs.microsoft.com/dotnet/net-core-2-1-will-reach-end-of-support-on-august-21-2021/",
      Channel(2, 2) := "https://devblogs.microsoft.com/dotnet/net-core-2-2-will-reach-end-of-life-on-december-23-2019/",
      Channel(3, 0) := "https://devblogs.microsoft.com/dotnet/net-core-3-0-end-of-life/",
      Channel(3, 1) := "https://devblogs.microsoft.com/dotnet/net-core-3-1-will-reach-end-of-support-on-december-13-2022/",
      Channel(5, 0) := "https://devblogs.microsoft.com/dotnet/dotnet-5-end-of-support-update/",
      Channel(6, 0) := "https://devblogs.microsoft.com/dotnet/dotnet-6-end-of-support/",
      Channel(7, 0) := "https://devblogs.microsoft.com/dotnet/dotnet-7-end-of-support/"])

  /** The channel has a launch date and an announcement link. */
  predicate Announced(cat: Catalog, c: Channel) {
    c in cat.launchDates && c in cat.announcementLinks
  }

  /** The channel also has an end-of-support link. */
  predicate Retired(cat: Catalog, c: Channel) {
    Announced(cat, c) && c in cat.endOfSupportLinks
  }

  /** Every channel of the list has a launch date and an announcement link. */
  lemma KnownAnnounced()
    ensures forall c :: c in ChannelVersions ==> Announced(Known, c)
  {
  }

  /** Every channel of the list but 8.0 and 9.0 has an end-of-support link. */
  lemma KnownRetired()
    ensures forall c :: c in ChannelVersions ==> (c in Known.endOfSupportLinks <==> c != Channel(8, 0) && c != Channel(9, 0))
  {
  }

  // ---------------------------------------------------------------- labels

  /** `idVersion`: a version ending in ".0" with every ".0" removed. */
  function IdVersion(v: string): string {
    if EndsWith(v, ".0") then Replace(v, ".0", "") else v
  }

  /** The label of an unsupported release: ".NET Core" for 1.x to 3.x. */
  function DisplayVersion(v: string): string {
    if StartsWith(v, "1.") || StartsWith(v, "2.") || StartsWith(v, "3.") then ".NET Core " + v
    else ".NET " + IdVersion(v)
  }

  lemma ReplaceWhole(pat: string, repl: string)
    requires |pat| > 0
    ensures Replace(pat, pat, repl) == repl
  {
    assert pat[..|pat|] == pat && pat[|pat|..] == [];
  }

  /** A channel "M.0" is labelled "M"; any other keeps its text. */
  lemma IdVersionOfChannel(c: Channel)
    ensures IdVersion(ChannelText(c)) == if c.minor == 0 then NatToString(c.major) else ChannelText(c)
  {
    var ma, mi := NatToString(c.major), NatToString(c.minor);
    var t := ChannelText(c);
    assert t == ma + ['.'] + mi;
    if c.minor == 0 {
      assert mi == ['0'];
      assert t == ma + ".0";
      assert '.' !in ma by {
        forall k | 0 <= k < |ma| ensures ma[k] != '.' { assert IsDigit(ma[k]); }
      }
      ReplaceSkipsPrefix(ma, ".0", ".0", "");
      ReplaceWhole(".0", "");
      assert ma + "" == ma;
    } else if |mi| == 1 {
      assert t[|t| - 1] == DigitChar(c.minor) != '0';
    } else {
      assert t[|t| - 2] == mi[|mi| - 2] != '.';
    }
  }

  /** The text of a channel starts with "d." exactly when its major version
      is the single digit d. */
  lemma ChannelStartsWith(c: Channel, d: nat)
    requires d < 10
    ensures StartsWith(ChannelText(c), [DigitChar(d), '.']) <==> c.major == d
  {
    var ma := NatToString(c.major);
    var t := ChannelText(c);
    assert t == ma + ['.'] + NatToString(c.minor);
    if |ma| == 1 {
      assert t[..2] == [DigitChar(c.major), '.'];
    } else {
      assert t[1] == ma[1] != '.';
    }
  }

  /** Channels 1.x to 3.x are ".NET Core" followed by the channel; others
      are ".NET" followed by the id version. */
  lemma DisplayVersionOfChannel(c: Channel)
    ensures DisplayVersion(ChannelText(c))
         == if 1 <= c.major <= 3 then ".NET Core " + ChannelText(c) else ".NET " + IdVersion(ChannelText(c))
  {
    ChannelStartsWith(c, 1);
    ChannelStartsWith(c, 2);
    ChannelStartsWith(c, 3);
    assert [DigitChar(1), '.'] == "1." && [DigitChar(2), '.'] == "2." && [DigitChar(3), '.'] == "3.";
  }

  // ---------------------------------------------------------------- lines

  const SupportedHeader: seq<string> := [
    "|  Version  | Release Date | Support | Latest Patch Version | End of Support |",
    "| :-- | :-- | :-- | :-- | :-- |"]

  const UnsupportedHeader: seq<string> := [
    "|  Version  | Release Date | Support | Final Patch Version | End of Support |",
    "| :-- | :-- | :-- | :-- | :-- |"]

  /** A row of the supported table; `fmt` is the "MMMM dd, yyyy" format. */
  function SupportedRow(r: ReleaseInfo, cat: Catalog, fmt: Instant -> string): string
    requires Announced(cat, r.channel)
  {
    var v := ChannelText(r.channel);
    "| [.NET " + IdVersion(v) + "](release-notes/" + v + "/README.md) | ["
      + fmt(cat.launchDates[r.channel]) + "](" + cat.announcementLinks[r.channel] + ") | ["
      + r.releaseType + "][policies] | [" + r.latestRelease + "][ " + r.latestRelease + "] | "
      + fmt(r.eolDate) + " |"
  }

  /** A row of the unsupported table. */
  function UnsupportedRow(r: ReleaseInfo, cat: Catalog, fmt: Instant -> string): string
    requires Retired(cat, r.channel)
  {
    var v := ChannelText(r.channel);
    "| [" + DisplayVersion(v) + "](release-notes/" + v + "/README.md) | ["
      + fmt(cat.launchDates[r.channel]) + "](" + cat.announcementLinks[r.channel] + ")  | ["
      + r.releaseType + "][policies] | [" + r.latestRelease + "][ " + r.latestRelease + "] | ["
      + fmt(r.eolDate) + "](" + cat.endOfSupportLinks[r.channel] + ") |"
  }

  /** The link reference of a release, in either table. */
  function LinkLine(r: ReleaseInfo): string {
    var v := ChannelText(r.channel);
    " [" + r.latestRelease + "]: release-note/" + v + "/" + r.latestRelease + "/" + r.latestRelease + ".md"
  }

  // ---------------------------------------------------------------- the row loop

  /** The releases that `keep` selects, in order. */
  function Select(rs: seq<ReleaseInfo>, keep: ReleaseInfo -> bool): (s: seq<ReleaseInfo>)
    ensures |s| <= |rs|
    ensures forall r :: r in s ==> r in rs && keep(r)
    decreases |rs|
  {
    if rs == [] then []
    else (if keep(rs[0]) then [rs[0]] else []) + Select(rs[1..], keep)
  }

  /** `row` can be formed for every release that `known` accepts. */
  ghost predicate Formable(known: ReleaseInfo -> bool, row: ReleaseInfo --> string) {
    forall r :: known(r) ==> row.requires(r)
  }

  /** The first loop of a table: the row of every release that `keep`
      selects, in order. A row reads dictionaries; `known` says whether
      they hold the release's channel, and a release they lack throws
      KeyNotFound. */
  function RowLoop(rs: seq<ReleaseInfo>, keep: ReleaseInfo -> bool, known: ReleaseInfo -> bool,
                   row: ReleaseInfo --> string): Emission<TableFailure>
    requires Formable(known, row)
    decreases |rs|
  {
    if rs == [] then Lines([])
    else if !keep(rs[0]) then RowLoop(rs[1..], keep, known, row)
    else if !known(rs[0]) then Throw(KeyNotFound(rs[0].channel))
    else Lines([row(rs[0])]).Then(RowLoop(rs[1..], keep, known, row))
  }

  /** The rows of `s`, all of which can be formed. */
  function RowsOf(s: seq<ReleaseInfo>, row: ReleaseInfo --> string): (lines: seq<string>)
    requires forall r :: r in s ==> row.requires(r)
    ensures |lines| == |s|
    ensures forall m :: 0 <= m < |s| ==> lines[m] == row(s[m])
  {
    seq(|s|, m requires 0 <= m < |s| => row(s[m]))
  }

  /** The position of the first release of `s` whose row cannot be formed;
      |s| when there is none. */
  function Writable(s: seq<ReleaseInfo>, known: ReleaseInfo -> bool): (k: nat)
    ensures k <= |s|
    ensures forall m :: 0 <= m < k ==> known(s[m])
    ensures k < |s| ==> !known(s[k])
    decreases |s|
  {
    if s == [] || !known(s[0]) then 0 else 1 + Writable(s[1..], known)
  }

  /** The loop writes the rows of the selected releases in order, up to the
      first whose row cannot be formed, and throws there. */
  lemma {:induction false} RowLoopSpec(rs: seq<ReleaseInfo>, keep: ReleaseInfo -> bool, known: ReleaseInfo -> bool, row: ReleaseInfo --> string)
    requires Formable(known, row)
    ensures var s := Select(rs, keep);
      var k := Writable(s, known);
      RowLoop(rs, keep, known, row) == Emission(RowsOf(s[..k], row), if k < |s| then Some(KeyNotFound(s[k].channel)) else None)
    decreases |rs|
  {
    if rs != [] {
      RowLoopSpec(rs[1..], keep, known, row);
      var s' := Select(rs[1..], keep);
      var k' := Writable(s', known);
      if keep(rs[0]) {
        var s := Select(rs, keep);
        assert s == [rs[0]] + s';
        if known(rs[0]) {
          assert s[1..] == s';
          var k := Writable(s, known);
          assert k == k' + 1;
          assert s[..k] == [rs[0]] + s'[..k'];
          assert RowsOf(s[..k], row) == [row(rs[0])] + RowsOf(s'[..k'], row);
        } else {
          assert RowsOf(s[..0], row) == [];
        }
      } else {
        assert Select(rs, keep) == s';
      }
    }
  }

  /** A table: the two header lines, the row loop, an empty line, the link
      reference of every selected release, then `trailer`. */
  function Table(header: seq<string>, rs: seq<ReleaseInfo>, keep: ReleaseInfo -> bool, known: ReleaseInfo -> bool, row: ReleaseInfo --> string,
                 trailer: seq<string>): Emission<TableFailure>
    requires Formable(known, row)
  {
    Lines(header).Then(RowLoop(rs, keep, known, row)).Then(Lines([""] + LinkLines(Select(rs, keep)) + trailer))
  }

  function LinkLines(s: seq<ReleaseInfo>): (lines: seq<string>)
    ensures |lines| == |s|
    ensures forall m :: 0 <= m < |s| ==> lines[m] == LinkLine(s[m])
  {
    seq(|s|, m requires 0 <= m < |s| => LinkLine(s[m]))
  }

  lemma {:induction false} SelectMembers(rs: seq<ReleaseInfo>, keep: ReleaseInfo -> bool)
    ensures forall r :: r in Select(rs, keep) <==> r in rs && keep(r)
    decreases |rs|
  {
    if rs != [] {
      SelectMembers(rs[1..], keep);
      assert rs == [rs[0]] + rs[1..];
    }
  }

  /** When every selected release can have its row formed, the table is
      the header, a row per selected release, an empty line, a link
      reference per selected release in the same order, and the trailer. */
  lemma TableShape(header: seq<string>, rs: seq<ReleaseInfo>, keep: ReleaseInfo -> bool, known: ReleaseInfo -> bool, row: ReleaseInfo --> string,
                   trailer: seq<string>)
    requires Formable(known, row)
    requires forall r :: r in rs && keep(r) ==> known(r)
    ensures var s := Select(rs, keep);
      Table(header, rs, keep, known, row, trailer) == Lines(header + RowsOf(s, row) + [""] + LinkLines(s) + trailer)
  {
    var s := Select(rs, keep);
    assert RowLoop(rs, keep, known, row) == Lines(RowsOf(s, row)) by {
      RowLoopSpec(rs, keep, known, row);
      var k := Writable(s, known);
      if k < |s| {
        assert false;
      }
      assert s[..k] == s;
    }
    var rows, tail := RowsOf(s, row), [""] + LinkLines(s) + trailer;
    assert header + rows + tail == header + rows + [""] + LinkLines(s) + trailer;
  }

  /** A table throws exactly when a selected release cannot have its row
      formed. */
  lemma TableFails(header: seq<string>, rs: seq<ReleaseInfo>, keep: ReleaseInfo -> bool, known: ReleaseInfo -> bool, row: ReleaseInfo --> string,
                   trailer: seq<string>)
    requires Formable(known, row)
    ensures Table(header, rs, keep, known, row, trailer).Failed() <==> exists r :: r in rs && keep(r) && !known(r)
  {
    var s := Select(rs, keep);
    SelectMembers(rs, keep);
    RowLoopSpec(rs, keep, known, row);
    var k := Writable(s, known);
    if k < |s| {
      assert s[k] in s;
    }
  }

  /** Selection keeps the order of the index. */
  lemma {:induction false} SelectDescending(rs: seq<ReleaseInfo>, keep: ReleaseInfo -> bool)
    requires Descending(rs)
    ensures Descending(Select(rs, keep))
    decreases |rs|
  {
    if rs != [] {
      assert Descending(rs[1..]) by {
        forall i, j | 0 <= i < j < |rs[1..]| ensures !Older(rs[1..][i].channel, rs[1..][j].channel) {
          assert rs[1..][i] == rs[i + 1] && rs[1..][j] == rs[j + 1];
        }
      }
      SelectDescending(rs[1..], keep);
      var s := Select(rs[1..], keep);
      if keep(rs[0]) {
        assert forall x :: x in s ==> !Older(rs[0].channel, x.channel) by {
          SelectMembers(rs[1..], keep);
          forall x | x in s ensures !Older(rs[0].channel, x.channel) {
            var k :| 0 <= k < |rs[1..]| && rs[1..][k] == x;
            assert rs[k + 1] == x;
          }
        }
        ConsDescending(rs[0], s);
      } else {
        assert Select(rs, keep) == s;
      }
    }
  }

  // ---------------------------------------------------------------- the two tables

  /** Still supported at `now`: the end of support is later. */
  predicate Supported(r: ReleaseInfo, now: Instant) {
    r.eolDate > now
  }

  function SupportedAt(now: Instant): ReleaseInfo -> bool {
    (r: ReleaseInfo) => Supported(r, now)
  }

  function UnsupportedAt(now: Instant): ReleaseInfo -> bool {
    (r: ReleaseInfo) => !Supported(r, now)
  }

  /** Whether the dictionaries hold what a row needs. */
  function AnnouncedIn(cat: Catalog): ReleaseInfo -> bool {
    (r: ReleaseInfo) => Announced(cat, r.channel)
  }

  function RetiredIn(cat: Catalog): ReleaseInfo -> bool {
    (r: ReleaseInfo) => Retired(cat, r.channel)
  }

  function SupportedRowOf(cat: Catalog, fmt: Instant -> string): (row: ReleaseInfo --> string)
    ensures Formable(AnnouncedIn(cat), row)
  {
    (r: ReleaseInfo) requires Announced(cat, r.channel) => SupportedRow(r, cat, fmt)
  }

  function UnsupportedRowOf(cat: Catalog, fmt: Instant -> string): (row: ReleaseInfo --> string)
    ensures Formable(RetiredIn(cat), row)
  {
    (r: ReleaseInfo) requires Retired(cat, r.channel) => UnsupportedRow(r, cat, fmt)
  }

  function SupportedOf(rs: seq<ReleaseInfo>, now: Instant): seq<ReleaseInfo> {
    Select(rs, SupportedAt(now))
  }

  function UnsupportedOf(rs: seq<ReleaseInfo>, now: Instant): seq<ReleaseInfo> {
    Select(rs, UnsupportedAt(now))
  }

  /** CreateSupportedTable, followed by the `trailer` lines that each page
      adds after the link references. */
  function SupportedTable(rs: seq<ReleaseInfo>, now: Instant, cat: Catalog, fmt: Instant -> string,
                          trailer: seq<string>): Emission<TableFailure> {
    Table(SupportedHeader, rs, SupportedAt(now), AnnouncedIn(cat), SupportedRowOf(cat, fmt), trailer)
  }

  /** CreateUnsupportedTable. */
  function UnsupportedTable(rs: seq<ReleaseInfo>, now: Instant, cat: Catalog, fmt: Instant -> string): Emission<TableFailure> {
    Table(UnsupportedHeader, rs, UnsupportedAt(now), RetiredIn(cat), UnsupportedRowOf(cat, fmt), [])
  }

  /** Every release lands in exactly one of the two tables: the supported
      one when its end of support is after `now`, the other one otherwise. */
  lemma Partition(rs: seq<ReleaseInfo>, now: Instant)
    ensures multiset(SupportedOf(rs, now)) + multiset(UnsupportedOf(rs, now)) == multiset(rs)
    ensures forall r :: r in SupportedOf(rs, now) <==> r in rs && r.eolDate > now
    ensures forall r :: r in UnsupportedOf(rs, now) <==> r in rs && r.eolDate <= now
  {
    SelectMembers(rs, SupportedAt(now));
    SelectMembers(rs, UnsupportedAt(now));
    SplitCounts(rs, now);
  }

  lemma {:induction false} SplitCounts(rs: seq<ReleaseInfo>, now: Instant)
    ensures multiset(SupportedOf(rs, now)) + multiset(UnsupportedOf(rs, now)) == multiset(rs)
    decreases |rs|
  {
    if rs != [] {
      SplitCounts(rs[1..], now);
      var s, u := SupportedOf(rs[1..], now), UnsupportedOf(rs[1..], now);
      assert rs == [rs[0]] + rs[1..];
      assert multiset(rs) == multiset{rs[0]} + multiset(rs[1..]);
      if rs[0].eolDate > now {
        assert SupportedOf(rs, now) == [rs[0]] + s;
        assert UnsupportedOf(rs, now) == u;
      } else {
        assert SupportedOf(rs, now) == s;
        assert UnsupportedOf(rs, now) == [rs[0]] + u;
      }
    }
  }

  /** The rows of supported releases whose channels are all announced. */
  function SupportedLines(s: seq<ReleaseInfo>, cat: Catalog, fmt: Instant -> string): (lines: seq<string>)
    requires forall r :: r in s ==> Announced(cat, r.channel)
    ensures |lines| == |s|
    ensures forall m :: 0 <= m < |s| ==> lines[m] == SupportedRow(s[m], cat, fmt)
  {
    RowsOf(s, SupportedRowOf(cat, fmt))
  }

  function UnsupportedLines(s: seq<ReleaseInfo>, cat: Catalog, fmt: Instant -> string): (lines: seq<string>)
    requires forall r :: r in s ==> Retired(cat, r.channel)
    ensures |lines| == |s|
    ensures forall m :: 0 <= m < |s| ==> lines[m] == UnsupportedRow(s[m], cat, fmt)
  {
    RowsOf(s, UnsupportedRowOf(cat, fmt))
  }

  /** When every supported channel is in the dictionaries, the supported
      table is its two header lines, a row per supported release, an empty
      line, a link reference per supported release in the same order, and
      the trailer. */
  lemma SupportedTableShape(rs: seq<ReleaseInfo>, now: Instant, cat: Catalog, fmt: Instant -> string, trailer: seq<string>)
    requires forall r :: r in SupportedOf(rs, now) ==> Announced(cat, r.channel)
    ensures var s := SupportedOf(rs, now);
      SupportedTable(rs, now, cat, fmt, trailer)
        == Lines(SupportedHeader + SupportedLines(s, cat, fmt) + [""] + LinkLines(s) + trailer)
  {
    SelectMembers(rs, SupportedAt(now));
    TableShape(SupportedHeader, rs, SupportedAt(now), AnnouncedIn(cat), SupportedRowOf(cat, fmt), trailer);
  }

  /** The unsupported table in the same shape, when every unsupported
      channel has all three dictionary entries. */
  lemma UnsupportedTableShape(rs: seq<ReleaseInfo>, now: Instant, cat: Catalog, fmt: Instant -> string)
    requires forall r :: r in UnsupportedOf(rs, now) ==> Retired(cat, r.channel)
    ensures var u := UnsupportedOf(rs, now);
      UnsupportedTable(rs, now, cat, fmt) == Lines(UnsupportedHeader + UnsupportedLines(u, cat, fmt) + [""] + LinkLines(u))
  {
    SelectMembers(rs, UnsupportedAt(now));
    TableShape(UnsupportedHeader, rs, UnsupportedAt(now), RetiredIn(cat), UnsupportedRowOf(cat, fmt), []);
    var u := UnsupportedOf(rs, now);
    assert UnsupportedHeader + UnsupportedLines(u, cat, fmt) + [""] + LinkLines(u) + []
        == UnsupportedHeader + UnsupportedLines(u, cat, fmt) + [""] + LinkLines(u);
  }

  /** With the generators' dictionaries and releases of listed channels,
      the supported table never throws, and the unsupported one throws
      exactly when 8.0 or 9.0 is out of support. */
  lemma KnownTables(rs: seq<ReleaseInfo>, now: Instant, fmt: Instant -> string, trailer: seq<string>)
    requires forall r :: r in rs ==> r.channel in ChannelVersions
    ensures !SupportedTable(rs, now, Known, fmt, trailer).Failed()
    ensures UnsupportedTable(rs, now, Known, fmt).Failed() <==> UnlinkedRetirement(rs, now)
  {
    KnownAnnounced();
    KnownRetired();
    TableFails(SupportedHeader, rs, SupportedAt(now), AnnouncedIn(Known), SupportedRowOf(Known, fmt), trailer);
    TableFails(UnsupportedHeader, rs, UnsupportedAt(now), RetiredIn(Known), UnsupportedRowOf(Known, fmt), []);
  }

  /** The tables of a sorted index list their releases newest first. */
  lemma TablesDescending(rs: seq<ReleaseInfo>, now: Instant)
    requires Descending(rs)
    ensures Descending(SupportedOf(rs, now)) && Descending(UnsupportedOf(rs, now))
  {
    SelectDescending(rs, SupportedAt(now));
    SelectDescending(rs, UnsupportedAt(now));
  }

  // ---------------------------------------------------------------- the index

  /** The channels of the index are in the dictionaries: all of them have a
      launch date and an announcement link, and all but 8.0 and 9.0 an
      end-of-support link. */
  lemma IndexKnown(files: map<Channel, ChannelJson>)
    ensures forall r :: r in Index(files) ==> Announced(Known, r.channel)
    ensures forall r :: r in Index(files) ==> (Retired(Known, r.channel) <==> r.channel != Channel(8, 0) && r.channel != Channel(9, 0))
  {
    IndexChannels(files);
    KnownAnnounced();
    KnownRetired();
  }

  /** The supported table of the index never throws: it is the header, a
      row per supported release newest first, an empty line, their link
      references in the same order, and the trailer. */
  lemma IndexSupportedTable(files: map<Channel, ChannelJson>, now: Instant, fmt: Instant -> string, trailer: seq<string>)
    ensures forall r :: r in SupportedOf(Index(files), now) ==> Announced(Known, r.channel)
    ensures Descending(SupportedOf(Index(files), now))
    ensures var s := SupportedOf(Index(files), now);
      SupportedTable(Index(files), now, Known, fmt, trailer) == Lines(SupportedHeader + SupportedLines(s, Known, fmt) + [""] + LinkLines(s) + trailer)
  {
    var rs := Index(files);
    IndexKnown(files);
    IndexContents(files);
    Partition(rs, now);
    TablesDescending(rs, now);
    SupportedTableShape(rs, now, Known, fmt, trailer);
  }

  /** The unsupported table of the index throws exactly when 8.0 or 9.0,
      which have no end-of-support link, is out of support. */
  lemma IndexUnsupportedFails(files: map<Channel, ChannelJson>, now: Instant, fmt: Instant -> string)
    ensures UnsupportedTable(Index(files), now, Known, fmt).Failed() <==> UnlinkedRetirement(Index(files), now)
  {
    IndexChannels(files);
    KnownTables(Index(files), now, fmt, []);
  }

  /** Otherwise it lists the unsupported releases newest first. */
  lemma IndexUnsupportedTable(files: map<Channel, ChannelJson>, now: Instant, fmt: Instant -> string)
    ensures !UnlinkedRetirement(Index(files), now) ==>
      && (forall r :: r in UnsupportedOf(Index(files), now) ==> Retired(Known, r.channel))
      && Descending(UnsupportedOf(Index(files), now))
      && var u := UnsupportedOf(Index(files), now);
        UnsupportedTable(Index(files), now, Known, fmt) == Lines(UnsupportedHeader + UnsupportedLines(u, Known, fmt) + [""] + LinkLines(u))
  {
    if !UnlinkedRetirement(Index(files), now) {
      var rs := Index(files);
      IndexKnown(files);
      IndexContents(files);
      Partition(rs, now);
      TablesDescending(rs, now);
      UnsupportedTableShape(rs, now, Known, fmt);
    }
  }

  /** Some release without an end-of-support link is out of support. */
  predicate UnlinkedRetirement(rs: seq<ReleaseInfo>, now: Instant) {
    exists r :: r in rs && r.eolDate <= now && (r.channel == Channel(8, 0) || r.channel == Channel(9, 0))
  }
}
