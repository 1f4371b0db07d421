/** The release index that ReleasesUpdater, RNReadMeUpdater and
    ReadMeUpdater build before rendering: one ReleaseInfo per channel whose
    releases.json exists, read with defaults for missing fields, then
    ordered by channel version, newest first. */
module Releases {
  import opened Basics
  import opened Text
  import opened Dates

  // ---------------------------------------------------------------- channels

  /** A channel version such as "8.0", as System.Version.Parse reads it. */
  datatype Channel = Channel(major: nat, minor: nat)

  /** The channel as it is written in the channel list and in paths. */
  function ChannelText(c: Channel): string {
    NatToString(c.major) + "." + NatToString(c.minor)
  }

  /** The channels every generator looks for, in this order. */
  const ChannelVersions: seq<Channel> := [
    Channel(1, 0), Channel(1, 1), Channel(2, 0), Channel(2, 1), Channel(2, 2), Channel(3, 0),
    Channel(3, 1), Channel(5, 0), Channel(6, 0), Channel(7, 0), Channel(8, 0), Channel(9, 0)]

  /** `a` is an older version than `b` (System.Version comparison). */
  predicate Older(a: Channel, b: Channel) {
    a.major < b.major || (a.major == b.major && a.minor < b.minor)
  }

  /** Distinct channels have distinct texts, so keying by the channel is
      the same as keying by its text. */
  lemma ChannelTextInjective(a: Channel, b: Channel)
    requires ChannelText(a) == ChannelText(b)
    ensures a == b
  {
    ChannelTextSplit(a);
    ChannelTextSplit(b);
    NatToStringInjective(a.major, b.major);
    NatToStringInjective(a.minor, b.minor);
  }

  /** Splitting the text of a channel at '.' gives back its two numbers. */
  lemma ChannelTextSplit(c: Channel)
    ensures Split(ChannelText(c), '.') == [NatToString(c.major), NatToString(c.minor)]
  {
    var ma, mi := NatToString(c.major), NatToString(c.minor);
    assert '.' !in ma by {
      forall k | 0 <= k < |ma| ensures ma[k] != '.' { assert IsDigit(ma[k]); }
    }
    assert '.' !in mi by {
      forall k | 0 <= k < |mi| ensures mi[k] != '.' { assert IsDigit(mi[k]); }
    }
    assert ChannelText(c) == ma + ['.'] + mi;
    SplitAtFirst(ma, mi, '.');
    SplitFree(mi, '.');
  }

  // ---------------------------------------------------------------- ReleaseInfo

  /** One row of the index. ChannelVersion is kept as the parsed channel;
      its text is ChannelText(channel). Dates are DateTime values. */
  datatype ReleaseInfo = ReleaseInfo(
    channel: Channel,
    latestRelease: string,
    latestReleaseDate: Instant,
    latestRuntime: string,
    latestSdk: string,
    supportPhase: string,
    releaseType: string,
    eolDate: Instant,
    lifecyclePolicy: string)

  /** A ReleaseInfo as its constructor leaves it, for the given channel:
      every string property "" and every DateTime default(DateTime). */
  function Blank(c: Channel): ReleaseInfo {
    ReleaseInfo(c, "", MinValue, "", "", "", "", MinValue, "")
  }

  /** The fields of a releases.json that the index reads; None when the
      property is absent. */
  datatype ChannelJson = ChannelJson(
    latestRelease: Option<string>,
    latestReleaseDate: Option<DateText>,
    latestRuntime: Option<string>,
    latestSdk: Option<string>,
    supportPhase: Option<string>,
    releaseType: Option<string>,
    eolDate: Option<DateText>,
    lifecyclePolicy: Option<string>)

  /** The object initializer of the extraction loop. */
  function FromJson(c: Channel, j: ChannelJson): ReleaseInfo {
    ReleaseInfo(
      c,
      j.latestRelease.GetOr(""),
      ParsedOrMin(j.latestReleaseDate),
      j.latestRuntime.GetOr(""),
      j.latestSdk.GetOr(""),
      j.supportPhase.GetOr(""),
      match j.releaseType case Some(t) => ToUpper(t) case None => "",
      ParsedOrMin(j.eolDate),
      j.lifecyclePolicy.GetOr(""))
  }

  /** A string property is copied when present and "" when absent; the
      release type is upper-cased. */
  lemma FromJsonStrings(c: Channel, j: ChannelJson)
    ensures var r := FromJson(c, j);
      && r.channel == c
      && (j.latestRelease.Some? ==> r.latestRelease == j.latestRelease.value)
      && (j.latestRelease.None? ==> r.latestRelease == "")
      && (j.latestRuntime.Some? ==> r.latestRuntime == j.latestRuntime.value)
      && (j.latestRuntime.None? ==> r.latestRuntime == "")
      && (j.latestSdk.Some? ==> r.latestSdk == j.latestSdk.value)
      && (j.latestSdk.None? ==> r.latestSdk == "")
      && (j.supportPhase.Some? ==> r.supportPhase == j.supportPhase.value)
      && (j.supportPhase.None? ==> r.supportPhase == "")
      && (j.lifecyclePolicy.Some? ==> r.lifecyclePolicy == j.lifecyclePolicy.value)
      && (j.lifecyclePolicy.None? ==> r.lifecyclePolicy == "")
      && (j.releaseType.None? ==> r.releaseType == "")
      && (j.releaseType.Some? ==> r.releaseType == ToUpper(j.releaseType.value))
      && (j.releaseType.Some? ==> |r.releaseType| == |j.releaseType.value|)
      && (forall k :: 0 <= k < |r.releaseType| ==> !IsAsciiLower(r.releaseType[k]))
  {
  }

  /** A date is the parsed value when the property is present and parses,
      and DateTime.MinValue otherwise. */
  lemma FromJsonDates(c: Channel, j: ChannelJson)
    ensures var r := FromJson(c, j);
      && (j.eolDate.Some? && j.eolDate.value.parsed.Some? ==> r.eolDate == j.eolDate.value.parsed.value)
      && (j.eolDate.None? || j.eolDate.value.parsed.None? ==> r.eolDate == MinValue)
      && (j.latestReleaseDate.Some? && j.latestReleaseDate.value.parsed.Some? ==> r.latestReleaseDate == j.latestReleaseDate.value.parsed.value)
      && (j.latestReleaseDate.None? || j.latestReleaseDate.value.parsed.None? ==> r.latestReleaseDate == MinValue)
  {
  }

  /** A releases.json with none of the properties gives the blank record. */
  lemma FromEmptyJson(c: Channel)
    ensures FromJson(c, ChannelJson(None, None, None, None, None, None, None, None)) == Blank(c)
  {
  }

  // ---------------------------------------------------------------- extraction

  /** The channel loop over `channels`: `files` holds the releases.json of
      the channels whose file exists; the others are skipped. */
  function Gather(channels: seq<Channel>, files: map<Channel, ChannelJson>): (rs: seq<ReleaseInfo>)
    ensures |rs| <= |channels|
    decreases |channels|
  {
    if channels == [] then []
    else
      var c := channels[0];
      (if c in files then [FromJson(c, files[c])] else []) + Gather(channels[1..], files)
  }

  function Extract(files: map<Channel, ChannelJson>): seq<ReleaseInfo> {
    Gather(ChannelVersions, files)
  }

  /** The loop as written: one pass over the channels, appending. */
  method GatherReleases(channels: seq<Channel>, files: map<Channel, ChannelJson>) returns (rs: seq<ReleaseInfo>)
    ensures rs == Gather(channels, files)
  {
    rs := [];
    var i := 0;
    while i < |channels|
      invariant 0 <= i <= |channels|
      invariant Gather(channels, files) == rs + Gather(channels[i..], files)
    {
      var c := channels[i];
      if c !in files {
        GatherSkip(channels, i, files, rs);
        i := i + 1;
        continue;
      }
      var r := FromJson(c, files[c]);
      GatherRead(channels, i, files, rs, r);
      rs := rs + [r];
      i := i + 1;
    }
    assert rs + [] == rs;
  }

  /** Gathering from position `i` reads channel `i`, then the rest. */
  lemma GatherStep(channels: seq<Channel>, i: nat, files: map<Channel, ChannelJson>)
    requires i < |channels|
    ensures Gather(channels[i..], files)
         == (if channels[i] in files then [FromJson(channels[i], files[channels[i]])] else []) + Gather(channels[i + 1..], files)
  {
    assert channels[i..][0] == channels[i] && channels[i..][1..] == channels[i + 1..];
  }

  /** A channel without a file adds nothing. */
  lemma GatherSkip(channels: seq<Channel>, i: nat, files: map<Channel, ChannelJson>, rs: seq<ReleaseInfo>)
    requires i < |channels| && channels[i] !in files
    requires Gather(channels, files) == rs + Gather(channels[i..], files)
    ensures Gather(channels, files) == rs + Gather(channels[i + 1..], files)
  {
    GatherStep(channels, i, files);
    assert [] + Gather(channels[i + 1..], files) == Gather(channels[i + 1..], files);
  }

  /** A channel with a file adds the release read from it. */
  lemma GatherRead(channels: seq<Channel>, i: nat, files: map<Channel, ChannelJson>, rs: seq<ReleaseInfo>, r: ReleaseInfo)
    requires i < |channels| && channels[i] in files && r == FromJson(channels[i], files[channels[i]])
    requires Gather(channels, files) == rs + Gather(channels[i..], files)
    ensures Gather(channels, files) == (rs + [r]) + Gather(channels[i + 1..], files)
  {
    GatherStep(channels, i, files);
    AppendAssoc(rs, [r], Gather(channels[i + 1..], files));
  }

  /** A release is gathered for exactly the channels of the list whose file
      exists, each read from its own file, in the order of the list. */
  lemma {:induction false} GatherContents(channels: seq<Channel>, files: map<Channel, ChannelJson>)
    ensures var rs := Gather(channels, files);
      && (forall r :: r in rs ==> r.channel in channels && r.channel in files && r == FromJson(r.channel, files[r.channel]))
      && (forall c :: c in channels && c in files ==> exists r :: r in rs && r.channel == c)
    decreases |channels|
  {
    if channels != [] {
      GatherContents(channels[1..], files);
      var c := channels[0];
      var rest := Gather(channels[1..], files);
      var head: seq<ReleaseInfo> := if c in files then [FromJson(c, files[c])] else [];
      assert Gather(channels, files) == head + rest;
      forall d | d in channels && d in files ensures exists r :: r in head + rest && r.channel == d {
        if d == c {
          assert FromJson(c, files[c]) in head + rest;
        } else {
          assert d in channels[1..];
          var r :| r in rest && r.channel == d;
          assert r in head + rest;
        }
      }
    }
  }

  /** Strictly increasing channel versions. */
  predicate Ascending(cs: seq<Channel>) {
    forall i, j :: 0 <= i < j < |cs| ==> Older(cs[i], cs[j])
  }

  function Channels(rs: seq<ReleaseInfo>): (cs: seq<Channel>)
    ensures |cs| == |rs| && forall k :: 0 <= k < |rs| ==> cs[k] == rs[k].channel
  {
    seq(|rs|, k requires 0 <= k < |rs| => rs[k].channel)
  }

  /** Gathering keeps the order of `channels`: a channel listed earlier
      comes earlier. */
  lemma {:induction false} GatherOrder(channels: seq<Channel>, files: map<Channel, ChannelJson>)
    requires Ascending(channels)
    ensures Ascending(Channels(Gather(channels, files)))
    decreases |channels|
  {
    if channels != [] {
      var c := channels[0];
      var rest := Gather(channels[1..], files);
      assert Ascending(Channels(rest)) by {
        assert Ascending(channels[1..]) by {
          forall i, j | 0 <= i < j < |channels[1..]| ensures Older(channels[1..][i], channels[1..][j]) {
            assert channels[1..][i] == channels[i + 1] && channels[1..][j] == channels[j + 1];
          }
        }
        GatherOrder(channels[1..], files);
      }
      if c !in files {
        assert Gather(channels, files) == rest;
      } else {
        var rs := [FromJson(c, files[c])] + rest;
        assert Gather(channels, files) == rs;
        assert Channels(rs) == [c] + Channels(rest);
        assert forall x :: x in Channels(rest) ==> Older(c, x) by {
          GatheredLater(channels, files);
        }
        ConsAscending(c, Channels(rest));
      }
    }
  }

  /** Every release gathered after the first channel is of a newer channel. */
  lemma GatheredLater(channels: seq<Channel>, files: map<Channel, ChannelJson>)
    requires channels != [] && Ascending(channels)
    ensures forall x :: x in Channels(Gather(channels[1..], files)) ==> Older(channels[0], x)
  {
    var rest := Gather(channels[1..], files);
    assert forall r :: r in rest ==> r.channel in channels[1..] by {
      GatherContents(channels[1..], files);
    }
    forall x | x in Channels(rest) ensures Older(channels[0], x) {
      var k :| 0 <= k < |rest| && Channels(rest)[k] == x;
      assert rest[k] in rest;
      var m :| 0 <= m < |channels[1..]| && channels[1..][m] == x;
      assert channels[m + 1] == x;
    }
  }

  lemma ConsAscending(c: Channel, cs: seq<Channel>)
    requires Ascending(cs) && forall x :: x in cs ==> Older(c, x)
    ensures Ascending([c] + cs)
  {
    var t := [c] + cs;
    forall i, j | 0 <= i < j < |t| ensures Older(t[i], t[j]) {
      assert t[j] == cs[j - 1];
      if i > 0 {
        assert t[i] == cs[i - 1];
      }
    }
  }

  /** The index holds a release for exactly the listed channels whose
      releases.json exists, each read from that file. */
  lemma ExtractContents(files: map<Channel, ChannelJson>)
    ensures var rs := Extract(files);
      && (forall r :: r in rs ==> r.channel in ChannelVersions && r.channel in files && r == FromJson(r.channel, files[r.channel]))
      && (forall c :: c in ChannelVersions && c in files ==> exists r :: r in rs && r.channel == c)
  {
    GatherContents(ChannelVersions, files);
  }

  // ---------------------------------------------------------------- the sort

  /** Non-increasing channel versions: no release is older than one after it. */
  predicate Descending(rs: seq<ReleaseInfo>) {
    forall i, j :: 0 <= i < j < |rs| ==> !Older(rs[i].channel, rs[j].channel)
  }

  /** `r` placed before the first release that is not newer than it. */
  function Insert(r: ReleaseInfo, s: seq<ReleaseInfo>): (t: seq<ReleaseInfo>)
    ensures multiset(t) == multiset(s) + multiset{r}
    decreases |s|
  {
    if s == [] || !Older(r.channel, s[0].channel) then [r] + s
    else
      assert s == [s[0]] + s[1..];
      [s[0]] + Insert(r, s[1..])
  }

  /** OrderByDescending by channel version. */
  function SortDescending(rs: seq<ReleaseInfo>): (t: seq<ReleaseInfo>)
    ensures multiset(t) == multiset(rs)
    decreases |rs|
  {
    if rs == [] then []
    else
      assert rs == [rs[0]] + rs[1..];
      Insert(rs[0], SortDescending(rs[1..]))
  }

  lemma ConsDescending(r: ReleaseInfo, s: seq<ReleaseInfo>)
    requires Descending(s) && forall x :: x in s ==> !Older(r.channel, x.channel)
    ensures Descending([r] + s)
  {
    var t := [r] + s;
    forall i, j | 0 <= i < j < |t| ensures !Older(t[i].channel, t[j].channel) {
      assert t[j] == s[j - 1];
      if i > 0 {
        assert t[i] == s[i - 1];
      }
    }
  }

  /** The tail of a newest-first list is newest first, and no release in
      it is newer than the head. */
  lemma DescendingTail(s: seq<ReleaseInfo>)
    requires s != [] && Descending(s)
    ensures Descending(s[1..])
    ensures forall x :: x in s[1..] ==> !Older(s[0].channel, x.channel)
  {
    forall i, j | 0 <= i < j < |s[1..]| ensures !Older(s[1..][i].channel, s[1..][j].channel) {
      assert s[1..][i] == s[i + 1] && s[1..][j] == s[j + 1];
    }
    forall x | x in s[1..] ensures !Older(s[0].channel, x.channel) {
      var k :| 0 <= k < |s[1..]| && s[1..][k] == x;
      assert s[k + 1] == x;
    }
  }

  lemma {:induction false} InsertDescending(r: ReleaseInfo, s: seq<ReleaseInfo>)
    requires Descending(s)
    ensures Descending(Insert(r, s))
    decreases |s|
  {
    if s == [] {
      ConsDescending(r, s);
    } else if Older(r.channel, s[0].channel) {
      DescendingTail(s);
      InsertDescending(r, s[1..]);
      var rest := Insert(r, s[1..]);
      forall x | x in rest ensures !Older(s[0].channel, x.channel) {
        assert x in multiset(rest);
        assert x == r || x in multiset(s[1..]);
      }
      ConsDescending(s[0], rest);
    } else {
      DescendingTail(s);
      ConsDescending(r, s);
    }
  }

  /** The sorted index is a permutation of the extracted one, newest first. */
  lemma {:induction false} SortDescendingSorts(rs: seq<ReleaseInfo>)
    ensures Descending(SortDescending(rs))
    ensures multiset(SortDescending(rs)) == multiset(rs)
    decreases |rs|
  {
    if rs != [] {
      SortDescendingSorts(rs[1..]);
      InsertDescending(rs[0], SortDescending(rs[1..]));
    }
  }

  /** An index that is already newest first is left as it is. */
  lemma {:induction false} SortDescendingKeepsSorted(rs: seq<ReleaseInfo>)
    requires Descending(rs)
    ensures SortDescending(rs) == rs
    decreases |rs|
  {
    if rs != [] {
      assert Descending(rs[1..]) by {
        forall i, j | 0 <= i < j < |rs[1..]| ensures !Older(rs[1..][i].channel, rs[1..][j].channel) {
          assert rs[1..][i] == rs[i + 1] && rs[1..][j] == rs[j + 1];
        }
      }
      SortDescendingKeepsSorted(rs[1..]);
      assert rs == [rs[0]] + rs[1..];
    }
  }

  /** The index every generator renders. */
  function Index(files: map<Channel, ChannelJson>): seq<ReleaseInfo> {
    SortDescending(Extract(files))
  }

  /** The index is newest first and holds the same releases as the
      extraction (see ExtractContents), each as often. */
  lemma IndexContents(files: map<Channel, ChannelJson>)
    ensures Descending(Index(files))
    ensures multiset(Index(files)) == multiset(Extract(files))
    ensures forall r :: r in Index(files) <==> r in Extract(files)
  {
    SortDescendingSorts(Extract(files));
    forall r ensures r in Index(files) <==> r in Extract(files) {
      assert r in Index(files) <==> r in multiset(Index(files));
    }
  }

  /** Every release of the index belongs to a listed channel. */
  lemma IndexChannels(files: map<Channel, ChannelJson>)
    ensures forall r :: r in Index(files) ==> r.channel in ChannelVersions
  {
    IndexContents(files);
    ExtractContents(files);
  }
}
