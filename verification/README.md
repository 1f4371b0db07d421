# ReleaseNotesGenerator core, modelled in Dafny

ReleaseNotesGenerator regenerates the Markdown index pages of the .NET
release notes from templates and from the `releases.json` files of each
channel. This project models the four generators that carry the logic:

- **ReleasesUpdater** (`releases.md`). It reads one `ReleaseInfo` per
  channel of the fixed list whose `releases.json` exists, with defaults for
  missing fields. It orders them newest channel first. It then copies the
  template, replacing every `SECTION-SUPPORTED` line by the table of releases
  still in support and every `SECTION-UNSUPPORTED` line by the table of
  releases out of support. The tables read three dictionaries: launch dates,
  announcement links and end-of-support links.
- **RNReadMeUpdater** (the release-notes README). It builds the same index.
  A `SECTION-RELEASE` line becomes the supported table, followed by a policy
  reference and two download links. A `SECTION-MARKDOWNFILES` line becomes
  one bullet per supported release, linking its latest patch notes.
- **ReadMeUpdater** (the top-level README). It builds the same index. A
  `SECTION-RELEASE` line becomes the supported table followed by
  `[policies]: release-policies.md`.
- **CveFileUpdater** (`cve8.md`, `cve9.md`). For each of the major versions
  8 and 9, it fills `{ID-VERSION}` into the CVE template and replaces the
  `SECTION-CVETABLE` line. The replacement is one bullet per listed release
  of that version's `releases.json`, followed by one bullet per CVE. Each
  CVE's link and heading come from a GitHub issue search that retries on
  403 Forbidden, waiting until the rate-limit reset or backing off
  exponentially.

Modules, one per file:

| file | module | what it holds |
|---|---|---|
| `basics.dfy` | `Basics` | `Option` |
| `text.dfy` | `Text` | `StartsWith`, `Contains`, `Replace`, `Split`, `Trim`, `ToUpper`, decimal rendering of naturals |
| `dates.dfy` | `Dates` | `DateTime` as an `Instant`, calendar dates, `TryParse`-or-`MinValue` |
| `output.dfy` | `Output` | `Emission`: the lines a `StreamWriter` received plus the exception that ended the run, if any |
| `template.dfy` | `Template` | the template loop shared by the three index pages |
| `releases.dfy` | `Releases` | channels, `ReleaseInfo`, extraction, the descending sort |
| `release_tables.dfy` | `ReleaseTables` | the dictionaries, the supported and unsupported tables |
| `releases_page.dfy` | `ReleasesPage` | `releases.md` |
| `release_notes_readme.dfy` | `ReleaseNotesReadMe` | the release-notes README |
| `main_readme.dfy` | `MainReadMe` | the top-level README |
| `cve_lookup.dfy` | `CveLookup` | the issue search with its retry protocol |
| `cve_table.dfy` | `CveTable` | the CVE pages |

Modelling choices:

- Everything a generator writes is an `Emission`. It holds the lines passed
  to `WriteLine` and, when an exception escaped, that exception. The lines
  written before the exception are kept, because `using` flushes the writer
  while the exception unwinds.
- A file that does not exist is `None`. The file system, the clock, the
  HTTP client and the date formatter are parameters:
  - `now` is `DateTime.Now`.
  - `fmt` and `monthYear` are the `"MMMM dd, yyyy"` and `"MMMM yyyy"`
    formats.
  - A JSON date is `DateText(text, parsed)`, where `parsed` is what
    `DateTime.(Try)Parse` makes of `text`.
  - The issue search is an answer stream `server`: the n-th request of the
    run receives `server(n)`.
- A channel is the pair `(major, minor)` that `Version.Parse` reads. Its text
  is `ChannelText`. `ChannelTextInjective` shows that keying the
  dictionaries by channel is the same as keying them by text.
- An issue whose first item has no `title` yields the redaction sentinel as
  link and `"No title available"` as heading. It does not yield the sentinel
  twice.
- A first item without `html_url` is rendered with an empty link, because
  C# interpolates `null` as `""`.

## Model

| member | source | states |
|---|---|---|
| CveLookup.GetCveIssueUrl | ReleaseNotesUpdater/CveFileUpdater.cs:137-204 | the attempt loop ends with exactly the lookup that the recursive definition `Resolve` describes: same outcome, same waits in the same order, same number of requests |
| CveLookup.Attempts | ReleaseNotesUpdater/CveFileUpdater.cs:149-202 | the attempt loop from attempt k with the current backoff delay: the lookup ends after more than k and at most five requests in all, with at most one wait for each request from attempt k on |
| CveLookup.Resolve | ReleaseNotesUpdater/CveFileUpdater.cs:146-202 | a lookup sends at least one and at most five requests, and waits at most once per request |
| CveLookup.ExamineMeaning | ReleaseNotesUpdater/CveFileUpdater.cs:153-199 | an answer leads to another attempt if and only if it is 403 with no reset header, or with a reset inside the range FromUnixTimeSeconds accepts and at most MaxDelayMs (4294967294 ms, the longest wait Task.Delay accepts) ahead; a reset further ahead throws DelayOutOfRange; only the backoff branch doubles the delay; any other answer ends the lookup with its terminal outcome |
| CveLookup.AttemptsRetryPrefix | ReleaseNotesUpdater/CveFileUpdater.cs:149-176 | every answer before the last one examined was a retried 403 |
| CveLookup.AttemptsExhaustion | ReleaseNotesUpdater/CveFileUpdater.cs:149-202 | the lookup ends with "Rate limit exceeded" if and only if every remaining attempt got a retried 403; it then sent all five requests and waited once for each |
| CveLookup.AttemptsStop | ReleaseNotesUpdater/CveFileUpdater.cs:178-199 | any other ending is decided by the last answer, which was not retried, after one wait per earlier attempt |
| CveLookup.ResolveProtocol | ReleaseNotesUpdater/CveFileUpdater.cs:146-202 | the whole retry protocol from the first attempt: request bounds, retried prefix, exhaustion if and only if all five answers were retried 403s, otherwise the last answer decides |
| CveLookup.HardFailureFirst | ReleaseNotesUpdater/CveFileUpdater.cs:178 | a first answer that is neither 403 nor a success throws the HTTP error after one request and no wait |
| CveLookup.ResetTooFarFirst | ReleaseNotesUpdater/CveFileUpdater.cs:159-166 | a first 403 whose reset lies more than MaxDelayMs ahead ends the lookup after one request, with no wait, on the exception Task.Delay throws |
| CveLookup.ResolveWaits | ReleaseNotesUpdater/CveFileUpdater.cs:147-173 | the k-th wait follows the k-th answer, which was a retried 403; a backoff wait lasts 2000 ms times 2 to the power of the number of earlier backoffs |
| CveLookup.ResetWaitIsClamped | ReleaseNotesUpdater/CveFileUpdater.cs:159-166 | a wait on a reset header lasts until the reset time, or zero when the reset time has passed |
| CveLookup.AttemptsBackoffs | ReleaseNotesUpdater/CveFileUpdater.cs:168-173 | from any attempt, the backoff waits are the current delay, then twice it, and so on, with no more than the attempts left |
| CveLookup.BackoffSchedule | ReleaseNotesUpdater/CveFileUpdater.cs:146-173 | the backoff waits of a lookup are 2000, 4000, 8000, ... ms, in order, at most five of them |
| CveLookup.HeaderWithoutBar | ReleaseNotesUpdater/CveFileUpdater.cs:194-195 | a title without a bar character gives the heading "No title available" |
| CveLookup.HeaderBetweenBars | ReleaseNotesUpdater/CveFileUpdater.cs:194-195 | the heading is the trimmed text between the first bar character and the next one, or the end of the title |
| CveLookup.HeaderOfPair | ReleaseNotesUpdater/CveFileUpdater.cs:194-195 | a title made of two bar-free texts joined by one bar gives the second text, trimmed |
| CveLookup.HeaderOfTitle | ReleaseNotesUpdater/CveFileUpdater.cs:194-196 | the usual title, an id and a bar-free heading joined by a spaced bar, gives back the heading when the heading has no surrounding white space |
| CveLookup.NoMatchIsRedacted | ReleaseNotesUpdater/CveFileUpdater.cs:184-199 | an answer without items, or with an empty items array, gives the redaction sentinel as both link and heading |
| CveLookup.MissingTitleIsRedacted | ReleaseNotesUpdater/CveFileUpdater.cs:186-192 | a first item without a title gives the sentinel as link and "No title available" as heading |
| CveLookup.FirstItemDecides | ReleaseNotesUpdater/CveFileUpdater.cs:184-196 | only the first item is read; with a title it gives its html_url and the heading of its title |
| CveTable.ServerBounded | ReleaseNotesUpdater/CveFileUpdater.cs:146-149 | every lookup of the run, wherever it starts, sends one to five requests |
| CveTable.WriteCveLines | ReleaseNotesUpdater/CveFileUpdater.cs:120-132 | the CVE loop skips entries without cve-id, writes one bullet per looked-up CVE, starts each lookup at the request after the previous one, and stops at the first lookup that throws with that lookup's error, which the model tags with the CVE's id |
| CveTable.LookUp | ReleaseNotesUpdater/CveFileUpdater.cs:129 | one GetCveIssueUrlAsync call, made against the run-wide answer stream from request n on, gives the lookup that the lookups of the run assign to request n |
| CveTable.CveLinesAreIdLines | ReleaseNotesUpdater/CveFileUpdater.cs:120-128 | entries without cve-id contribute nothing: the bullets are those of the list of ids |
| CveTable.IdLinesNames | ReleaseNotesUpdater/CveFileUpdater.cs:129-131 | the k-th bullet starts with "  - [", the k-th id, a space, a bar and a space |
| CveTable.IdLinesBullets | ReleaseNotesUpdater/CveFileUpdater.cs:129-131 | the k-th bullet is the line of the k-th id built from what its own lookup found, that lookup starting at the request where the k earlier lookups stopped |
| CveTable.IdLinesStops | ReleaseNotesUpdater/CveFileUpdater.cs:129-131 | there are at most as many bullets as ids; the table throws if and only if it wrote fewer; it then throws the error of the lookup of the first id without a bullet, made at the request where the earlier lookups stopped, and the model tags that error with the id |
| CveTable.IdLinesRequests | ReleaseNotesUpdater/CveFileUpdater.cs:129 | the CVEs of a release send at most five requests each, and at least one each when nothing throws |
| CveTable.ReleaseBlocksKept | ReleaseNotesUpdater/CveFileUpdater.cs:105-117 | releases lacking release-version, release-date or cve-list, and "rc" or "preview" releases, contribute nothing and send no request |
| CveTable.ShownRelease | ReleaseNotesUpdater/CveFileUpdater.cs:117-133 | a listed release writes its "- version (Month yyyy)" bullet followed by its CVE bullets, or throws when DateTime.Parse rejects its date |
| CveTable.PageFailsWithoutReleases | ReleaseNotesUpdater/CveFileUpdater.cs:97-103 | a page whose template has a table line, over a releases.json without a releases section, ends with that exception |
| CveTable.FilledKeepsPlaceholder | ReleaseNotesUpdater/CveFileUpdater.cs:64-68 | filling in the version never hides the table placeholder |
| CveTable.PlainLine | ReleaseNotesUpdater/CveFileUpdater.cs:64-75 | a line with neither placeholder is written unchanged |
| CveTable.ExpandCveVerbatim | ReleaseNotesUpdater/CveFileUpdater.cs:62-77 | a template without a table line is written with the version filled in on every line, and sends no request |
| CveTable.TableStep | ReleaseNotesUpdater/CveFileUpdater.cs:64-70 | a filled-in line starting with the table placeholder is replaced by the table, and the rest of the page follows from the request where the table stopped, unless the table threw |
| CveTable.CvePagesNames | ReleaseNotesUpdater/CveFileUpdater.cs:35-60 | a page is written for each version whose releases.json exists, in order, and none when the template is missing |
| CveTable.IdPageNames | ReleaseNotesUpdater/CveFileUpdater.cs:14-39 | for versions 8 and 9 the pages are named cve8.md and cve9.md |
| CveTable.UpdateCveFilesNames | ReleaseNotesUpdater/CveFileUpdater.cs:33-87 | a run writes cve8.md then cve9.md, each only if its releases.json exists, and nothing without a template |
| Template.ExpandTemplate | ReleaseNotesUpdater/ReleasesUpdater.cs:122-137 | the line loop writes exactly what the recursive expansion describes |
| Template.ExpandVerbatim | ReleaseNotesUpdater/ReleasesUpdater.cs:133-136 | a template without section lines is copied line for line |
| Template.ExpandAppend | ReleaseNotesUpdater/ReleasesUpdater.cs:122-137 | expanding two pieces of a template one after the other is expanding the whole |
| Template.ExpandAt | ReleaseNotesUpdater/ReleasesUpdater.cs:122-137 | line i contributes its own output between that of the lines before and after it |
| Template.ExpandFails | ReleaseNotesUpdater/ReleasesUpdater.cs:122-137 | the page throws if and only if some line's output throws |
| Text.NatToStringRoundTrip | ReleaseNotesUpdater/CveFileUpdater.cs:37-39 | the decimal text of a number reads back as that number |
| Text.NatToStringInjective | ReleaseNotesUpdater/CveFileUpdater.cs:39 | different numbers have different decimal texts, so different versions get different file names |
| Text.JoinSplit | ReleaseNotesUpdater/CveFileUpdater.cs:194 | joining the pieces of Split with the separator gives the string back |
| Text.SplitJoin | ReleaseNotesUpdater/CveFileUpdater.cs:194 | splitting a join of separator-free pieces gives the pieces back |
| Text.SplitPiecesFree | ReleaseNotesUpdater/CveFileUpdater.cs:194 | no piece of Split contains the separator |
| Text.SecondPiece | ReleaseNotesUpdater/CveFileUpdater.cs:194-195 | the second piece is the text between the first separator and the next one, or the end |
| Text.TrimUnique | ReleaseNotesUpdater/CveFileUpdater.cs:195 | Trim removes exactly the leading and trailing white space |
| Text.Trim | ReleaseNotesUpdater/CveFileUpdater.cs:195 | the result is no longer than the input and neither starts nor ends with white space |
| Text.ReplaceSkipsPrefix | ReleaseNotesUpdater/ReleasesUpdater.cs:151 | a prefix that cannot start a match is kept and the rest is replaced |
| Releases.ChannelTextInjective | ReleaseNotesUpdater/ReleasesUpdater.cs:16-64 | different channels have different texts, so keying the dictionaries by channel is keying them by text |
| Releases.ChannelTextSplit | ReleaseNotesUpdater/ReleasesUpdater.cs:117 | the text of a channel splits at '.' into its major and minor numbers, as Version.Parse reads it |
| Releases.FromJsonStrings | ReleaseNotesUpdater/ReleasesUpdater.cs:100-111 | each string property is the JSON value, or empty when the property is absent; the release type is the JSON value upper-cased, so it keeps its length and has no lower-case letter |
| Releases.FromJsonDates | ReleaseNotesUpdater/ReleasesUpdater.cs:104-109 | each date is the parsed JSON value, or DateTime.MinValue when it is absent or does not parse |
| Releases.FromEmptyJson | ReleaseNotesUpdater/ReleasesUpdater.cs:100-111 | a releases.json with none of the properties yields the freshly constructed ReleaseInfo |
| Releases.GatherReleases | ReleaseNotesUpdater/ReleasesUpdater.cs:86-114 | the channel loop collects one ReleaseInfo per channel whose file exists, read from that file, in list order |
| Releases.GatherContents | ReleaseNotesUpdater/ReleasesUpdater.cs:86-114 | every gathered release comes from a listed channel with a file and is read from it; every listed channel with a file is gathered |
| Releases.GatherOrder | ReleaseNotesUpdater/ReleasesUpdater.cs:86-114 | gathering keeps the ascending order of the channel list |
| Releases.ExtractContents | ReleaseNotesUpdater/ReleasesUpdater.cs:16-114 | the extracted releases are those of the twelve known channels whose file exists, each read from its own file |
| Releases.InsertDescending | ReleaseNotesUpdater/ReleasesUpdater.cs:117 | inserting into a newest-first list keeps it newest first |
| Releases.SortDescendingSorts | ReleaseNotesUpdater/ReleasesUpdater.cs:117 | the sort orders by channel version, newest first, and is a permutation of its input |
| Releases.SortDescendingKeepsSorted | ReleaseNotesUpdater/ReleasesUpdater.cs:117 | a list already newest first is left unchanged |
| Releases.IndexContents | ReleaseNotesUpdater/ReleasesUpdater.cs:86-117 | the index is newest first and holds exactly the extracted releases, with their multiplicities |
| Releases.IndexChannels | ReleaseNotesUpdater/ReleasesUpdater.cs:16-117 | every release of the index belongs to one of the twelve listed channels |
| ReleaseTables.KnownAnnounced | ReleaseNotesUpdater/ReleasesUpdater.cs:20-50 | every listed channel has a launch date and an announcement link |
| ReleaseTables.KnownRetired | ReleaseNotesUpdater/ReleasesUpdater.cs:52-64 | every listed channel except 8.0 and 9.0 has an end-of-support link |
| ReleaseTables.IdVersionOfChannel | ReleaseNotesUpdater/ReleasesUpdater.cs:151 | a channel "M.0" is labelled "M"; any other channel keeps its text |
| ReleaseTables.ChannelStartsWith | ReleaseNotesUpdater/ReleasesUpdater.cs:181 | a channel's text starts with "d." if and only if its major version is the digit d |
| ReleaseTables.DisplayVersionOfChannel | ReleaseNotesUpdater/ReleasesUpdater.cs:181 | channels 1.x to 3.x read ".NET Core" and their text; the others read ".NET" and their label |
| ReleaseTables.SelectMembers | ReleaseNotesUpdater/ReleasesUpdater.cs:147-149 | a table lists exactly the releases on its side of the current time |
| ReleaseTables.SelectDescending | ReleaseNotesUpdater/ReleasesUpdater.cs:147-149 | selecting rows keeps a newest-first order |
| ReleaseTables.RowLoopSpec | ReleaseNotesUpdater/ReleasesUpdater.cs:147-156 | the row loop writes the rows of the selected releases in order up to the first one missing from a dictionary, then throws KeyNotFoundException naming that channel |
| ReleaseTables.TableShape | ReleaseNotesUpdater/ReleasesUpdater.cs:143-167 | a table whose selected releases are all in the dictionaries is the header, one row per release, an empty line, one link reference per release and the trailer |
| ReleaseTables.TableFails | ReleaseNotesUpdater/ReleasesUpdater.cs:143-167 | a table throws if and only if a selected release is missing from a dictionary it reads |
| ReleaseTables.Partition | ReleaseNotesUpdater/ReleasesUpdater.cs:149-175 | the supported and unsupported releases split the index: end of support after now, or not, each release on exactly one side |
| ReleaseTables.SupportedTableShape | ReleaseNotesUpdater/ReleasesUpdater.cs:143-167 | the supported table is its header, the supported rows, an empty line and their link references |
| ReleaseTables.UnsupportedTableShape | ReleaseNotesUpdater/ReleasesUpdater.cs:169-195 | the unsupported table is its header, the unsupported rows with end-of-support links, an empty line and their link references |
| ReleaseTables.KnownTables | ReleaseNotesUpdater/ReleasesUpdater.cs:143-195 | over listed channels, the supported table never throws; the unsupported table throws if and only if 8.0 or 9.0 is out of support |
| ReleaseTables.TablesDescending | ReleaseNotesUpdater/ReleasesUpdater.cs:143-195 | both tables of a newest-first index list their releases newest first |
| ReleaseTables.IndexKnown | ReleaseNotesUpdater/ReleasesUpdater.cs:16-64 | every release of the index has a launch date and an announcement link, and an end-of-support link exactly when it is not 8.0 or 9.0 |
| ReleaseTables.IndexSupportedTable | ReleaseNotesUpdater/ReleasesUpdater.cs:143-167 | over the index, the supported table lists the supported releases newest first, with no exception |
| ReleaseTables.IndexUnsupportedFails | ReleaseNotesUpdater/ReleasesUpdater.cs:175-180 | over the index, the unsupported table throws if and only if 8.0 or 9.0 is out of support |
| ReleaseTables.IndexUnsupportedTable | ReleaseNotesUpdater/ReleasesUpdater.cs:169-195 | otherwise it lists the unsupported releases newest first, all with an end-of-support link |
| ReleasesPage.ReleasesMd | ReleaseNotesUpdater/ReleasesUpdater.cs:74-79 | releases.md is written if and only if the template exists |
| ReleasesPage.PlaceholdersExclusive | ReleaseNotesUpdater/ReleasesUpdater.cs:125-132 | no line starts with both SECTION-SUPPORTED and SECTION-UNSUPPORTED |
| ReleasesPage.SectionsVerbatim | ReleaseNotesUpdater/ReleasesUpdater.cs:133-136 | lines with neither placeholder are copied |
| ReleasesPage.ReleasesMdVerbatim | ReleaseNotesUpdater/ReleasesUpdater.cs:122-137 | a template without placeholders is written as it is |
| ReleasesPage.SectionAt | ReleaseNotesUpdater/ReleasesUpdater.cs:122-137 | a placeholder line contributes its table between the output of the lines before and after it |
| ReleasesPage.SupportedSectionAt | ReleaseNotesUpdater/ReleasesUpdater.cs:125-128 | a SECTION-SUPPORTED line becomes the supported table of the index, newest first |
| ReleasesPage.UnsupportedSectionAt | ReleaseNotesUpdater/ReleasesUpdater.cs:129-132 | a SECTION-UNSUPPORTED line becomes the unsupported table of the index, newest first, when it does not throw |
| ReleasesPage.ExpandFailsAtUnsupported | ReleaseNotesUpdater/ReleasesUpdater.cs:122-137 | with a supported table that cannot throw, the page throws if and only if it has a SECTION-UNSUPPORTED line and that table throws |
| ReleasesPage.ReleasesMdFails | ReleaseNotesUpdater/ReleasesUpdater.cs:122-137 | releases.md ends with a KeyNotFoundException if and only if the template has a SECTION-UNSUPPORTED line and 8.0 or 9.0 is out of support |
| ReleaseNotesReadMe.MarkdownExamplesSpec | ReleaseNotesUpdater/RNReadMeUpdater.cs:159-168 | there is one bullet per supported release, in index order, linking "./channel/latest/latest.md" |
| ReleaseNotesReadMe.NotesReadMe | ReleaseNotesUpdater/RNReadMeUpdater.cs:60-65 | the README is written if and only if the template exists |
| ReleaseNotesReadMe.PlaceholdersExclusive | ReleaseNotesUpdater/RNReadMeUpdater.cs:111-118 | no line starts with both SECTION-RELEASE and SECTION-MARKDOWNFILES |
| ReleaseNotesReadMe.SectionsNeverFail | ReleaseNotesUpdater/RNReadMeUpdater.cs:108-123 | with a table that cannot throw, the page cannot throw |
| ReleaseNotesReadMe.NotesReadMeNeverFails | ReleaseNotesUpdater/RNReadMeUpdater.cs:129-157 | the README never throws: every release of the index is in both dictionaries |
| ReleaseNotesReadMe.SectionsVerbatim | ReleaseNotesUpdater/RNReadMeUpdater.cs:119-122 | lines with neither placeholder are copied |
| ReleaseNotesReadMe.NotesReadMeVerbatim | ReleaseNotesUpdater/RNReadMeUpdater.cs:108-123 | a template without placeholders is written as it is |
| ReleaseNotesReadMe.SectionAt | ReleaseNotesUpdater/RNReadMeUpdater.cs:108-123 | a placeholder line contributes its section between the output of the lines before and after it |
| ReleaseNotesReadMe.ReleaseSectionAt | ReleaseNotesUpdater/RNReadMeUpdater.cs:129-157 | a SECTION-RELEASE line becomes the supported table, newest first, followed by the policy reference and the two download links |
| ReleaseNotesReadMe.MarkdownSectionAt | ReleaseNotesUpdater/RNReadMeUpdater.cs:115-118 | a SECTION-MARKDOWNFILES line becomes the bullets of the supported releases, newest first |
| MainReadMe.ReadMe | ReleaseNotesUpdater/ReadMeUpdater.cs:59-64 | the README is written if and only if the template exists |
| MainReadMe.SectionsNeverFail | ReleaseNotesUpdater/ReadMeUpdater.cs:107-118 | with a table that cannot throw, the page cannot throw |
| MainReadMe.ReadMeNeverFails | ReleaseNotesUpdater/ReadMeUpdater.cs:124-150 | the README never throws: every release of the index is in both dictionaries |
| MainReadMe.SectionsVerbatim | ReleaseNotesUpdater/ReadMeUpdater.cs:114-117 | lines without the placeholder are copied |
| MainReadMe.ReadMeVerbatim | ReleaseNotesUpdater/ReadMeUpdater.cs:107-118 | a template without SECTION-RELEASE is written as it is |
| MainReadMe.ReleaseSectionAt | ReleaseNotesUpdater/ReadMeUpdater.cs:124-150 | a SECTION-RELEASE line becomes the supported table, newest first, followed by "[policies]: release-policies.md" |

## Left out

- File and directory I/O is left out. That covers `File.Exists`, `ReadAllLines`, `ReadAllText`, `StreamWriter` and the hard-coded directories. A file is an `Option` value, and a page is the `Emission` the writer would receive.
- The `LogChanges` log file and its messages are left out. They do not change what a page contains.
- JSON parsing is left out. `JObject.Parse` is replaced by the `ChannelJson`, `CveDocument` and `Item` records, in which an absent property is `None`. A property that is present with the JSON value `null` is not distinguished from one holding a string.
- `DateTime.Parse`, `DateTime.TryParse` and the `"MMMM dd, yyyy"` and `"MMMM yyyy"` formats are parameters (`DateText.parsed`, `fmt`, `monthYear`). Culture-dependent parsing is not modelled.
- `DateTime.Now` is read once per page (`now`). The source reads it at every comparison, so a page rendered across a support boundary could differ.
- The HTTP client, the `Authorization` and `User-Agent` headers, `Task.Delay` and `async` are left out. Answers are input data, and waits are returned as a trace instead of being slept.
- `long.Parse` is left out. A reset header is either a number or text that does not parse.
- Network exceptions other than a non-success status are left out, and so is a malformed search answer.
- CveTable.LookupFailed: the model tags a failed lookup's error with the CVE id it was for. The source lets the lookup's own exception through unchanged, either "Rate limit exceeded" or the `HttpRequestException` of `EnsureSuccessStatusCode`, and neither carries the id. The catch around each page logs only the message.
- The text of exception messages is left out. Each exception is a constructor of `CveFailure`, `LookupError` or `TableFailure`.
- The idLastUpdated date and the GitHub token are left out. They are unused or only sent as a header.
- Text.StartsWith: compares ordinally, while .NET's `StartsWith(string)` and `EndsWith(string)` compare with the current culture. The two differ only on text with ignorable or combining characters, which the templates and version strings do not contain.
- CveLookup.MaxDelayMs: the largest wait is the limit of .NET 6 and later (`uint.MaxValue - 1` milliseconds). Earlier runtimes refuse anything above `int.MaxValue` milliseconds. Waits are counted in whole milliseconds rather than `TimeSpan` ticks.
- Text.ToUpper: it upper-cases ASCII letters only, while `string.ToUpper()` follows the culture's full Unicode case mapping.
- The tables are built once per page. The source builds them again at each placeholder line, but they are pure, so the output is the same.
- A table is keyed by `Channel` rather than by its string. `ChannelTextInjective` shows the two keyings agree for the listed channels.
- The rendering of `TimeSpan.TotalSeconds` in the log message is left out.
- `Program.cs` (the order in which generators run and their constructor arguments) is left out. So are `FileUpdater.cs` (the base class: log location and template directory) and the install, runtime, SDK and version-readme generators. They are not part of the modelled core.
- Integer widths are left out. The backoff delay is an `int` that doubles at most five times from 2000, to 64000; the longest backoff wait is 32000 ms (`BackoffSchedule`), and reset arithmetic stays within `DateTimeOffset`'s range. Neither can overflow, so both are unbounded integers here.
