/** ReleasesUpdater: releases.md is its template with every line that starts
    with SECTION-SUPPORTED replaced by the table of supported releases, every
    line that starts with SECTION-UNSUPPORTED by the table of unsupported
    ones, and every other line copied. */
module ReleasesPage {
  import opened Basics
  import opened Text
  import opened Dates
  import opened Output
  import opened Template
  import opened Releases
  import opened ReleaseTables

  const SupportedPlaceholder: string := "SECTION-SUPPORTED"
  const UnsupportedPlaceholder: string := "SECTION-UNSUPPORTED"

  /** What a template line turns into, given the two tables; the supported
      test comes first. */
  function Section(line: string, supported: Emission<TableFailure>, unsupported: Emission<TableFailure>): Option<Emission<TableFailure>> {
    if StartsWith(line, SupportedPlaceholder) then Some(supported)
    else if StartsWith(line, UnsupportedPlaceholder) then Some(unsupported)
    else None
  }

  function Sections(supported: Emission<TableFailure>, unsupported: Emission<TableFailure>): string -> Option<Emission<TableFailure>> {
    (line: string) => Section(line, supported, unsupported)
  }

  /** The sections of the page: both tables over the sorted index, read with
      the generators' dictionaries. The tables are pure, so building them
      once is the same as building them at each placeholder line. */
  function PageSections(files: map<Channel, ChannelJson>, now: Instant, fmt: Instant -> string): string -> Option<Emission<TableFailure>> {
    Sections(SupportedTable(Index(files), now, Known, fmt, []), UnsupportedTable(Index(files), now, Known, fmt))
  }

  /** UpdateFiles: nothing is written when the template does not exist;
      otherwise the expanded template over the sorted index. `now` is the
      clock and `fmt` the "MMMM dd, yyyy" date format. */
  function ReleasesMd(template: Option<seq<string>>, files: map<Channel, ChannelJson>, now: Instant, fmt: Instant -> string): (out: Option<Emission<TableFailure>>)
    ensures out.None? <==> template.None?
  {
    match template
    case None => None
    case Some(lines) => Some(Expand(lines, PageSections(files, now, fmt)))
  }

  /** No line starts with both placeholders, so the order of the two tests
      never decides anything. */
  lemma PlaceholdersExclusive(line: string)
    ensures !(StartsWith(line, SupportedPlaceholder) && StartsWith(line, UnsupportedPlaceholder))
  {
    if StartsWith(line, SupportedPlaceholder) {
      assert line[8] == 'S';
      if |line| >= |UnsupportedPlaceholder| {
        assert line[..|UnsupportedPlaceholder|][8] == 'S';
      }
    }
  }

  /** A template without placeholder lines is copied verbatim. */
  lemma SectionsVerbatim(lines: seq<string>, supported: Emission<TableFailure>, unsupported: Emission<TableFailure>)
    requires forall i :: 0 <= i < |lines| ==> !StartsWith(lines[i], SupportedPlaceholder) && !StartsWith(lines[i], UnsupportedPlaceholder)
    ensures Expand(lines, Sections(supported, unsupported)) == Lines(lines)
  {
    ExpandVerbatim(lines, Sections(supported, unsupported));
  }

  lemma ReleasesMdVerbatim(lines: seq<string>, files: map<Channel, ChannelJson>, now: Instant, fmt: Instant -> string)
    requires forall i :: 0 <= i < |lines| ==> !StartsWith(lines[i], SupportedPlaceholder) && !StartsWith(lines[i], UnsupportedPlaceholder)
    ensures ReleasesMd(Some(lines), files, now, fmt) == Some(Lines(lines))
  {
    SectionsVerbatim(lines, SupportedTable(Index(files), now, Known, fmt, []), UnsupportedTable(Index(files), now, Known, fmt));
  }

  /** A placeholder line contributes its table, between the output of the
      lines before it and that of the lines after it. */
  lemma SectionAt(lines: seq<string>, i: nat, supported: Emission<TableFailure>, unsupported: Emission<TableFailure>)
    requires i < |lines|
    ensures var sections := Sections(supported, unsupported);
      StartsWith(lines[i], SupportedPlaceholder) ==> Expand(lines, sections) == Expand(lines[..i], sections).Then(supported).Then(Expand(lines[i + 1..], sections))
    ensures var sections := Sections(supported, unsupported);
      StartsWith(lines[i], UnsupportedPlaceholder) ==> Expand(lines, sections) == Expand(lines[..i], sections).Then(unsupported).Then(Expand(lines[i + 1..], sections))
  {
    PlaceholdersExclusive(lines[i]);
    ExpandAt(lines, i, Sections(supported, unsupported));
  }

  /** A SECTION-SUPPORTED line becomes the supported table, newest first,
      between the output of the lines before it and of those after it. */
  lemma SupportedSectionAt(lines: seq<string>, i: nat, files: map<Channel, ChannelJson>, now: Instant, fmt: Instant -> string)
    requires i < |lines| && StartsWith(lines[i], SupportedPlaceholder)
    ensures forall r :: r in SupportedOf(Index(files), now) ==> Announced(Known, r.channel)
    ensures Descending(SupportedOf(Index(files), now))
    ensures var s, sections := SupportedOf(Index(files), now), PageSections(files, now, fmt);
      ReleasesMd(Some(lines), files, now, fmt)
        == Some(Expand(lines[..i], sections)
             .Then(Lines(SupportedHeader + SupportedLines(s, Known, fmt) + [""] + LinkLines(s)))
             .Then(Expand(lines[i + 1..], sections)))
  {
    var s := SupportedOf(Index(files), now);
    IndexSupportedTable(files, now, fmt, []);
    SectionAt(lines, i, SupportedTable(Index(files), now, Known, fmt, []), UnsupportedTable(Index(files), now, Known, fmt));
    assert SupportedHeader + SupportedLines(s, Known, fmt) + [""] + LinkLines(s) + []
        == SupportedHeader + SupportedLines(s, Known, fmt) + [""] + LinkLines(s);
  }

  /** A SECTION-UNSUPPORTED line becomes the unsupported table, newest
      first, when no release lacking an end-of-support link is out of
      support. */
  lemma UnsupportedSectionAt(lines: seq<string>, i: nat, files: map<Channel, ChannelJson>, now: Instant, fmt: Instant -> string)
    requires i < |lines| && StartsWith(lines[i], UnsupportedPlaceholder)
    ensures !UnlinkedRetirement(Index(files), now) ==>
      && (forall r :: r in UnsupportedOf(Index(files), now) ==> Retired(Known, r.channel))
      && Descending(UnsupportedOf(Index(files), now))
      && var u, sections := UnsupportedOf(Index(files), now), PageSections(files, now, fmt);
        ReleasesMd(Some(lines), files, now, fmt)
          == Some(Expand(lines[..i], sections)
               .Then(Lines(UnsupportedHeader + UnsupportedLines(u, Known, fmt) + [""] + LinkLines(u)))
               .Then(Expand(lines[i + 1..], sections)))
  {
    IndexUnsupportedTable(files, now, fmt);
    SectionAt(lines, i, SupportedTable(Index(files), now, Known, fmt, []), UnsupportedTable(Index(files), now, Known, fmt));
  }

  /** With a supported table that cannot throw, the expansion throws
      exactly when the template has a SECTION-UNSUPPORTED line and the
      unsupported table throws. */
  lemma ExpandFailsAtUnsupported(lines: seq<string>, supported: Emission<TableFailure>, unsupported: Emission<TableFailure>)
    requires !supported.Failed()
    ensures Expand(lines, Sections(supported, unsupported)).Failed()
        <==> (exists i :: 0 <= i < |lines| && StartsWith(lines[i], UnsupportedPlaceholder)) && unsupported.Failed()
  {
    var sections := Sections(supported, unsupported);
    forall i | 0 <= i < |lines|
      ensures LineOutput(lines[i], sections).Failed() <==> StartsWith(lines[i], UnsupportedPlaceholder) && unsupported.Failed()
    {
      PlaceholdersExclusive(lines[i]);
    }
    ExpandFails(lines, sections);
  }

  /** The page records a KeyNotFoundException exactly when the template has
      a SECTION-UNSUPPORTED line and 8.0 or 9.0 is out of support. */
  lemma ReleasesMdFails(lines: seq<string>, files: map<Channel, ChannelJson>, now: Instant, fmt: Instant -> string)
    ensures ReleasesMd(Some(lines), files, now, fmt).value.Failed()
        <==> (exists i :: 0 <= i < |lines| && StartsWith(lines[i], UnsupportedPlaceholder)) && UnlinkedRetirement(Index(files), now)
  {
    IndexSupportedTable(files, now, fmt, []);
    IndexUnsupportedFails(files, now, fmt);
    ExpandFailsAtUnsupported(lines, SupportedTable(Index(files), now, Known, fmt, []), UnsupportedTable(Index(files), now, Known, fmt));
  }
}
