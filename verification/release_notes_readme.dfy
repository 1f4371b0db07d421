/** RNReadMeUpdater: the README of the release-notes directory is its
    template with every line that starts with SECTION-RELEASE replaced by
    the supported table followed by the policy reference and two download
    links, every line that starts with SECTION-MARKDOWNFILES by a bullet
    list linking the notes of each supported release's latest patch, and
    every other line copied. */
module ReleaseNotesReadMe {
  import opened Basics
  import opened Text
  import opened Dates
  import opened Output
  import opened Template
  import opened Releases
  import opened ReleaseTables

  const ReleasePlaceholder: string := "SECTION-RELEASE"
  const MarkdownFilesPlaceholder: string := "SECTION-MARKDOWNFILES"

  /** The lines this page writes after the link references of its table. */
  const Trailer: seq<string> := [
    " [policies]: release-policies.md\n",
    "* [Binaries and installers](https://dotnet.microsoft.com/download/dotnet)",
    "* [Installation docs](https://learn.microsoft.com/dotnet/core/install/)"]

  /** The notes of a release's latest patch, relative to this README. */
  function NotesPath(r: ReleaseInfo): string {
    ChannelText(r.channel) + "/" + r.latestRelease + "/" + r.latestRelease + ".md"
  }

  /** A bullet whose text is the path and whose target is "./" and the path. */
  function MarkdownLink(r: ReleaseInfo): string {
    "* [" + NotesPath(r) + "](./" + NotesPath(r) + ")"
  }

  /** CreateMarkdownExamples: one pass over the index writing the bullet of
      each release still supported at `now`. */
  function MarkdownExamples(rs: seq<ReleaseInfo>, now: Instant): seq<string>
    decreases |rs|
  {
    if rs == [] then []
    else (if rs[0].eolDate > now then [MarkdownLink(rs[0])] else []) + MarkdownExamples(rs[1..], now)
  }

  /** The bullets are those of the supported releases, one each and in the
      order of the index. */
  lemma {:induction false} MarkdownExamplesSpec(rs: seq<ReleaseInfo>, now: Instant)
    ensures var s := SupportedOf(rs, now);
      |MarkdownExamples(rs, now)| == |s|
      && forall k :: 0 <= k < |s| ==> MarkdownExamples(rs, now)[k] == MarkdownLink(s[k])
    decreases |rs|
  {
    if rs != [] {
      MarkdownExamplesSpec(rs[1..], now);
      var s, s' := SupportedOf(rs, now), SupportedOf(rs[1..], now);
      var m, m' := MarkdownExamples(rs, now), MarkdownExamples(rs[1..], now);
      if rs[0].eolDate > now {
        assert s == [rs[0]] + s';
        assert m == [MarkdownLink(rs[0])] + m';
        forall k | 0 < k < |s| ensures m[k] == MarkdownLink(s[k]) {
          assert m[k] == m'[k - 1] && s[k] == s'[k - 1];
        }
      } else {
        assert s == s' && m == m';
      }
    }
  }

  /** What a template line turns into, given the table and the bullet list;
      the table test comes first. */
  function Section(line: string, table: Emission<TableFailure>, markdown: seq<string>): Option<Emission<TableFailure>> {
    if StartsWith(line, ReleasePlaceholder) then Some(table)
    else if StartsWith(line, MarkdownFilesPlaceholder) then Some(Lines(markdown))
    else None
  }

  function Sections(table: Emission<TableFailure>, markdown: seq<string>): string -> Option<Emission<TableFailure>> {
    (line: string) => Section(line, table, markdown)
  }

  /** The sections of the page over the sorted index. */
  function PageSections(files: map<Channel, ChannelJson>, now: Instant, fmt: Instant -> string): string -> Option<Emission<TableFailure>> {
    Sections(SupportedTable(Index(files), now, Known, fmt, Trailer), MarkdownExamples(Index(files), now))
  }

  /** UpdateFiles: nothing is written when the template does not exist;
      otherwise the expanded template. */
  function NotesReadMe(template: Option<seq<string>>, files: map<Channel, ChannelJson>, now: Instant, fmt: Instant -> string): (out: Option<Emission<TableFailure>>)
    ensures out.None? <==> template.None?
  {
    match template
    case None => None
    case Some(lines) => Some(Expand(lines, PageSections(files, now, fmt)))
  }

  lemma PlaceholdersExclusive(line: string)
    ensures !(StartsWith(line, ReleasePlaceholder) && StartsWith(line, MarkdownFilesPlaceholder))
  {
    if StartsWith(line, ReleasePlaceholder) {
      assert line[8] == 'R';
      if |line| >= |MarkdownFilesPlaceholder| {
        assert line[..|MarkdownFilesPlaceholder|][8] == 'R';
      }
    }
  }

  /** With a table that cannot throw, no line can. */
  lemma SectionsNeverFail(lines: seq<string>, table: Emission<TableFailure>, markdown: seq<string>)
    requires !table.Failed()
    ensures !Expand(lines, Sections(table, markdown)).Failed()
  {
    var sections := Sections(table, markdown);
    forall i | 0 <= i < |lines| ensures !LineOutput(lines[i], sections).Failed() {
    }
    ExpandFails(lines, sections);
  }

  /** The page never records an exception: every release of the index has
      a launch date and an announcement link. */
  lemma NotesReadMeNeverFails(lines: seq<string>, files: map<Channel, ChannelJson>, now: Instant, fmt: Instant -> string)
    ensures !NotesReadMe(Some(lines), files, now, fmt).value.Failed()
  {
    IndexSupportedTable(files, now, fmt, Trailer);
    SectionsNeverFail(lines, SupportedTable(Index(files), now, Known, fmt, Trailer), MarkdownExamples(Index(files), now));
  }

  lemma SectionsVerbatim(lines: seq<string>, table: Emission<TableFailure>, markdown: seq<string>)
    requires forall i :: 0 <= i < |lines| ==> !StartsWith(lines[i], ReleasePlaceholder) && !StartsWith(lines[i], MarkdownFilesPlaceholder)
    ensures Expand(lines, Sections(table, markdown)) == Lines(lines)
  {
    ExpandVerbatim(lines, Sections(table, markdown));
  }

  /** A template without placeholder lines is copied verbatim. */
  lemma NotesReadMeVerbatim(lines: seq<string>, files: map<Channel, ChannelJson>, now: Instant, fmt: Instant -> string)
    requires forall i :: 0 <= i < |lines| ==> !StartsWith(lines[i], ReleasePlaceholder) && !StartsWith(lines[i], MarkdownFilesPlaceholder)
    ensures NotesReadMe(Some(lines), files, now, fmt) == Some(Lines(lines))
  {
    SectionsVerbatim(lines, SupportedTable(Index(files), now, Known, fmt, Trailer), MarkdownExamples(Index(files), now));
  }

  lemma SectionAt(lines: seq<string>, i: nat, table: Emission<TableFailure>, markdown: seq<string>)
    requires i < |lines|
    ensures var sections := Sections(table, markdown);
      StartsWith(lines[i], ReleasePlaceholder) ==> Expand(lines, sections) == Expand(lines[..i], sections).Then(table).Then(Expand(lines[i + 1..], sections))
    ensures var sections := Sections(table, markdown);
      StartsWith(lines[i], MarkdownFilesPlaceholder) ==> Expand(lines, sections) == Expand(lines[..i], sections).Then(Lines(markdown)).Then(Expand(lines[i + 1..], sections))
  {
    PlaceholdersExclusive(lines[i]);
    ExpandAt(lines, i, Sections(table, markdown));
  }

  /** A SECTION-RELEASE line becomes the supported table, newest first,
      ending with the policy reference and the two download links. */
  lemma ReleaseSectionAt(lines: seq<string>, i: nat, files: map<Channel, ChannelJson>, now: Instant, fmt: Instant -> string)
    requires i < |lines| && StartsWith(lines[i], ReleasePlaceholder)
    ensures forall r :: r in SupportedOf(Index(files), now) ==> Announced(Known, r.channel)
    ensures Descending(SupportedOf(Index(files), now))
    ensures var s, sections := SupportedOf(Index(files), now), PageSections(files, now, fmt);
      NotesReadMe(Some(lines), files, now, fmt)
        == Some(Expand(lines[..i], sections)
             .Then(Lines(SupportedHeader + SupportedLines(s, Known, fmt) + [""] + LinkLines(s) + Trailer))
             .Then(Expand(lines[i + 1..], sections)))
  {
    IndexSupportedTable(files, now, fmt, Trailer);
    SectionAt(lines, i, SupportedTable(Index(files), now, Known, fmt, Trailer), MarkdownExamples(Index(files), now));
  }

  /** A SECTION-MARKDOWNFILES line becomes one bullet per supported release,
      newest first. */
  lemma MarkdownSectionAt(lines: seq<string>, i: nat, files: map<Channel, ChannelJson>, now: Instant, fmt: Instant -> string)
    requires i < |lines| && StartsWith(lines[i], MarkdownFilesPlaceholder)
    ensures Descending(SupportedOf(Index(files), now))
    ensures var s, m := SupportedOf(Index(files), now), MarkdownExamples(Index(files), now);
      |m| == |s| && forall k :: 0 <= k < |s| ==> m[k] == MarkdownLink(s[k])
    ensures var sections := PageSections(files, now, fmt);
      NotesReadMe(Some(lines), files, now, fmt)
        == Some(Expand(lines[..i], sections)
             .Then(Lines(MarkdownExamples(Index(files), now)))
             .Then(Expand(lines[i + 1..], sections)))
  {
    IndexContents(files);
    TablesDescending(Index(files), now);
    MarkdownExamplesSpec(Index(files), now);
    SectionAt(lines, i, SupportedTable(Index(files), now, Known, fmt, Trailer), MarkdownExamples(Index(files), now));
  }
}
