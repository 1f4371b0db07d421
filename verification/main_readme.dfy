/** ReadMeUpdater: the top-level README is its template with every line
    that starts with SECTION-RELEASE replaced by the supported table
    followed by the policy reference, and every other line copied. */
module MainReadMe {
  import opened Basics
  import opened Text
  import opened Dates
  import opened Output
  import opened Template
  import opened Releases
  import opened ReleaseTables

  const ReleasePlaceholder: string := "SECTION-RELEASE"

  /** The line this page writes after the link references of its table. */
  const Trailer: seq<string> := ["[policies]: release-policies.md"]

  function Section(line: string, table: Emission<TableFailure>): Option<Emission<TableFailure>> {
    if StartsWith(line, ReleasePlaceholder) then Some(table) else None
  }

  function Sections(table: Emission<TableFailure>): string -> Option<Emission<TableFailure>> {
    (line: string) => Section(line, table)
  }

  /** The section of the page: the supported table over the sorted index. */
  function PageSections(files: map<Channel, ChannelJson>, now: Instant, fmt: Instant -> string): string -> Option<Emission<TableFailure>> {
    Sections(SupportedTable(Index(files), now, Known, fmt, Trailer))
  }

  /** UpdateFiles: nothing is written when the template does not exist;
      otherwise the expanded template. */
  function ReadMe(template: Option<seq<string>>, files: map<Channel, ChannelJson>, now: Instant, fmt: Instant -> string): (out: Option<Emission<TableFailure>>)
    ensures out.None? <==> template.None?
  {
    match template
    case None => None
    case Some(lines) => Some(Expand(lines, PageSections(files, now, fmt)))
  }

  /** With a table that cannot throw, no line can. */
  lemma SectionsNeverFail(lines: seq<string>, table: Emission<TableFailure>)
    requires !table.Failed()
    ensures !Expand(lines, Sections(table)).Failed()
  {
    var sections := Sections(table);
    forall i | 0 <= i < |lines| ensures !LineOutput(lines[i], sections).Failed() {
    }
    ExpandFails(lines, sections);
  }

  /** The page never records an exception: every release of the index has
      a launch date and an announcement link. */
  lemma ReadMeNeverFails(lines: seq<string>, files: map<Channel, ChannelJson>, now: Instant, fmt: Instant -> string)
    ensures !ReadMe(Some(lines), files, now, fmt).value.Failed()
  {
    IndexSupportedTable(files, now, fmt, Trailer);
    SectionsNeverFail(lines, SupportedTable(Index(files), now, Known, fmt, Trailer));
  }

  lemma SectionsVerbatim(lines: seq<string>, table: Emission<TableFailure>)
    requires forall i :: 0 <= i < |lines| ==> !StartsWith(lines[i], ReleasePlaceholder)
    ensures Expand(lines, Sections(table)) == Lines(lines)
  {
    ExpandVerbatim(lines, Sections(table));
  }

  /** A template without a SECTION-RELEASE line is copied verbatim. */
  lemma ReadMeVerbatim(lines: seq<string>, files: map<Channel, ChannelJson>, now: Instant, fmt: Instant -> string)
    requires forall i :: 0 <= i < |lines| ==> !StartsWith(lines[i], ReleasePlaceholder)
    ensures ReadMe(Some(lines), files, now, fmt) == Some(Lines(lines))
  {
    SectionsVerbatim(lines, SupportedTable(Index(files), now, Known, fmt, Trailer));
  }

  /** A SECTION-RELEASE line becomes the supported table, newest first,
      ending with the policy reference. */
  lemma ReleaseSectionAt(lines: seq<string>, i: nat, files: map<Channel, ChannelJson>, now: Instant, fmt: Instant -> string)
    requires i < |lines| && StartsWith(lines[i], ReleasePlaceholder)
    ensures forall r :: r in SupportedOf(Index(files), now) ==> Announced(Known, r.channel)
    ensures Descending(SupportedOf(Index(files), now))
    ensures var s, sections := SupportedOf(Index(files), now), PageSections(files, now, fmt);
      ReadMe(Some(lines), files, now, fmt)
        == Some(Expand(lines[..i], sections)
             .Then(Lines(SupportedHeader + SupportedLines(s, Known, fmt) + [""] + LinkLines(s) + Trailer))
             .Then(Expand(lines[i + 1..], sections)))
  {
    IndexSupportedTable(files, now, fmt, Trailer);
    ExpandAt(lines, i, PageSections(files, now, fmt));
  }
}
