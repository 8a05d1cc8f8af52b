# get-3gpp-spec in Dafny

A model of the command-line tool that fetches 3GPP technical specifications
from the public archive at `ftp.3gpp.org`. Given a spec number (`38.331`),
a release (`15` or `*`) and a calendar quarter (`2024-01` or `*`), the tool
lists `/Specs/archive/<series>_series/<spec>`. It keeps the files whose
version suffix encodes the requested release and whose modification date
falls in the requested quarter, and sorts them newest first. Then it either
prints the list (any release) or downloads the newest file (one release).

The model covers the logic of `src/cli.ts`. The FTP listing is a parameter:

- `js_text.dfy`, module `JsText`: the JavaScript built-ins the tool relies
  on. These are `indexOf`, `lastIndexOf`, `split` on one character, and
  `Number` on decimal-digit strings, where `None` stands for NaN.
- `node_path.dfy`, module `NodePath`: `path.parse(name).name`, the file
  name without its extension.
- `cli.dfy`, module `Cli`: `getSeries`, the archive path, `getRelease`, the
  version suffix of a file name, `parseDate` and the quarter window.
- `cli_listing.dfy`, module `CliListing`: the filter/map/sort chain and the
  final choice between printing the list and downloading the newest file.

Dates are the argument records of `new Date(year, month, day, hour, minute)`,
with the month counted from 0. They are compared on the month index
`year * 12 + month`, then day, hour and minute. `new Date` carries a month
outside 0..11 over into the year, so the month index matches it. The
quarter `yy-mm` is the half-open window from `new Date(yy, mm - 1)` to
`new Date(yy, mm + 2)`. `new Date` reads a year from 0 to 99 as 1900 to 1999,
and the model does the same.

Three behaviours of the code are easy to miss, and the model keeps them:
- `getRelease` looks up the first character of every version whose length
  is not 6. A version of another length is not rejected.
- The comparator `b.date - a.date` puts the newest file first and leaves
  equal dates side by side, so the list is non-increasing in date, not
  strictly decreasing.
- A six-character version starting `00` is release 0.

## Model

| member | source | states |
|---|---|---|
| JsText.IndexOf | src/cli.ts:110 | -1 exactly when the character is absent; otherwise a position holding it with no earlier occurrence |
| JsText.LastIndexOf | src/cli.ts:34 | -1 exactly when the character is absent; otherwise a position holding it with no later occurrence |
| JsText.Split | src/cli.ts:123-129 | `split` on one character gives at least one piece |
| JsText.SplitPieces | src/cli.ts:123-129 | no piece holds the separator, and joining the pieces with it gives back the input |
| JsText.SplitJoin | src/cli.ts:123-129 | splitting pieces joined by a separator none of them holds gives back the pieces |
| JsText.Number | src/cli.ts:42 | a number exactly when the string is all digits, the empty string included |
| JsText.NumberOfDecimal | src/cli.ts:42 | `Number` reads back the decimal spelling of every natural number |
| NodePath.ParsedName | src/cli.ts:33 | the name is unchanged exactly when there is no dot, the only dot comes first, or the name is `..`; otherwise it is the non-empty prefix before the last dot |
| NodePath.ParsedNameDropsExtension | src/cli.ts:33 | `<stem>.<ext>` with a dot-free extension parses to `<stem>` |
| Cli.GetSeries | src/cli.ts:109-115 | an error exactly when the spec has no dot; otherwise the dot-free prefix that the first dot follows |
| Cli.SeriesOfSpec | src/cli.ts:109-115 | the series of `<series>.<rest>` is `<series>` for every dot-free series |
| Cli.ArchivePath | src/cli.ts:16-17 | an error exactly when the spec has no dot |
| Cli.ArchivePathOfSpec | src/cli.ts:16-17 | the directory of `<series>.<rest>` is `/Specs/archive/<series>_series/<series>.<rest>` |
| Cli.GetRelease | src/cli.ts:92-102 | for a 6-character version, defined exactly when its first two characters are digits, and then ten times the first plus the second; otherwise defined exactly when the first character is in the alphabet, and then a release from 1 to 35 whose alphabet letter is that character |
| Cli.ReleaseOfLetter | src/cli.ts:96-101 | looking the first character up in the alphabet equals character arithmetic: `1`-`9` are 1-9, `a`-`z` are 10-35, anything else has no release |
| Cli.LetterReleaseExample | src/cli.ts:96-101 | version `f40` is release 15 |
| Cli.UpperCaseLetterExample | src/cli.ts:101 | version `F40` has no release |
| Cli.SixCharacterReleaseExample | src/cli.ts:93-95 | version `190100` is release 19 |
| Cli.AfterLastHyphen | src/cli.ts:34-40 | an error exactly when the name has no hyphen; otherwise the hyphen-free suffix that the name's last hyphen precedes |
| Cli.VersionOf | src/cli.ts:33-40 | an error exactly when the extension-less name has no hyphen; otherwise the hyphen-free suffix that the name's last hyphen precedes |
| Cli.VersionOfArchiveFile | src/cli.ts:33-40 | `<stem>-<version>.<ext>` has version `<version>` when the version has no hyphen or dot and the extension no dot |
| Cli.VersionExample | src/cli.ts:33-40 | `38331-f40.zip` has version `f40` |
| Cli.MonthIndex | src/cli.ts:132 | the month index of a date equals that of the date with its month carried into the year (`year + month / 12`, `month % 12`), as `new Date` carries it |
| Cli.NotLater | src/cli.ts:59-61 | definition: `a` is at or before `b`, compared on month index, then day, hour and minute |
| Cli.NotLaterTotal | src/cli.ts:59-61 | any two dates compare |
| Cli.NotLaterTransitive | src/cli.ts:59-61 | the date order chains |
| Cli.CenturyYear | src/cli.ts:125 | a two-digit year maps into 1998..2097 and keeps its last two digits |
| Cli.ParseDay | src/cli.ts:124 | definition: the `MM-DD-YY` half split at `-`, its first three pieces read with `Number` |
| Cli.ParseDayOf | src/cli.ts:124 | `MM-DD-YY` of digit strings reads as its three numbers |
| Cli.ParseClock | src/cli.ts:126-131 | definition: the time half without its last two characters, split at `:`, its first two pieces read with `Number`, twelve hours added when the last two characters are `PM` |
| Cli.ParseClockOf | src/cli.ts:126-131 | `hh:mm` plus a two-character suffix reads as hour `hh + 12` exactly when the suffix is `PM`, else `hh`, and minute `mm` |
| Cli.ParseDate | src/cli.ts:122-133 | a parsed date has a year of at least 1998, a month of at least -1 and non-negative day, hour and minute |
| Cli.ParseTimestamp | src/cli.ts:122-133 | every timestamp `MM-DD-YY hh:mm` plus a two-character suffix whose fields read as numbers parses to year `CenturyYear(YY)`, month `MM - 1`, day `DD`, hour `hh + 12` exactly for `PM` and `hh` otherwise, and minute `mm` |
| Cli.ParseDateExamples | src/cli.ts:122-133 | `03-15-24 02:30PM` is 2024, month index 2, day 15, 14:30; `03-15-99 11:05AM` is in 1999 |
| Cli.TwelveOClockAsWritten | src/cli.ts:126-131 | `12:30AM` is hour 12 and `12:30PM` hour 24: twelve o'clock gets no special case |
| Cli.QuarterEdgeAsWritten | src/cli.ts:130-132 | `03-31-24 12:30PM` parses to hour 24 of 31 March 2024 and lies in quarter `2024-01` in the model |
| Cli.ParseQuarter | src/cli.ts:50 | a quarter exactly when its text splits at `-` into at least two pieces, the first two all digits |
| Cli.ParseQuarterOf | src/cli.ts:50 | `<yyyy>-<mm>` of digit strings, zero-padded or not, reads as their two numbers |
| Cli.ParseQuarterOfDecimal | src/cli.ts:50 | `<year>-<month>` written in decimal reads back as that year and month |
| Cli.ConstructorYear | src/cli.ts:51-52 | a year from 0 to 99 becomes 1900 to 1999 with the same last two digits; any other year is unchanged |
| Cli.QuarterStart | src/cli.ts:51 | the first instant (day 1, 00:00) of month index `year * 12 + mm - 1` |
| Cli.QuarterEnd | src/cli.ts:52 | the first instant (day 1, 00:00) of the month three months after the start |
| Cli.InQuarter | src/cli.ts:53 | definition: the date is not before the start and before the end |
| Cli.InQuarterByMonth | src/cli.ts:51-53 | a date from day 1 on is in the window exactly when its month index is one of the quarter's three; a day 0 shifts the window one month later |
| Cli.QuarterArgumentExample | src/cli.ts:50 | `2024-01` reads as year 2024, month 1 |
| Cli.FirstQuarterOf2024 | src/cli.ts:50-53 | `2024-01` keeps January to March 2024 and drops December 2023 and April 2024 |
| CliListing.ReleaseMatches | src/cli.ts:42-44 | definition: a wildcard passes; otherwise the release is defined and equals `Number(rel)` |
| CliListing.DateMatches | src/cli.ts:46-53 | definition: a wildcard passes; otherwise the quarter and the timestamp both read and the date is in the quarter's window |
| CliListing.PassesRelease | src/cli.ts:33-44 | definition: the name has a version and its release matches |
| CliListing.Kept | src/cli.ts:31-53 | definition: the filter callback returns true |
| CliListing.FilterBy | src/cli.ts:30-54 | for any callback: an error exactly when some entry makes it throw; otherwise each entry is kept exactly when the callback accepts it, as often as it is listed |
| CliListing.Filter | src/cli.ts:30-54 | an error exactly when some listed name has no hyphen; otherwise each entry is kept exactly when the callback accepts it, as often as it is listed |
| CliListing.DateOf | src/cli.ts:57 | the date the entry's timestamp parses to |
| CliListing.WithDates | src/cli.ts:55-58 | each kept entry gets the date its timestamp parses to, with multiplicity preserved |
| CliListing.Insert | src/cli.ts:59-61 | inserting into a newest-first list keeps it newest first and adds exactly that entry |
| CliListing.SortNewestFirst | src/cli.ts:59-61 | the result is newest first and a permutation of the input |
| CliListing.NewestFirstHead | src/cli.ts:59-61 | the head of a newest-first list is not older than any of its entries |
| CliListing.ListMatching | src/cli.ts:30-61 | an error exactly when some name has no hyphen; otherwise a newest-first list holding each kept entry with its parsed date, as often as it is listed, and nothing else |
| CliListing.ListedPassesFilters | src/cli.ts:42-53 | every listed file comes from the listing with its date; with a concrete release its release is defined and equals `Number(rel)`; with a concrete quarter its date is in the window |
| CliListing.KeptIsListed | src/cli.ts:30-58 | every file of the listing that passes both tests is listed with its date |
| CliListing.WildcardsKeepEverything | src/cli.ts:42-48 | with both wildcards a file is kept exactly when its name has a version |
| CliListing.NoneKeptIffEmpty | src/cli.ts:68-71 | the list is empty exactly when no file of the listing passes |
| CliListing.NewestIsHead | src/cli.ts:59-68 | the list's head is a kept file of the listing, not older than any other kept file |
| CliListing.Run | src/cli.ts:14-74 | a malformed spec, a name without a hyphen, and "not found" each happen exactly in their case; with a wildcard release the printed list is the whole newest-first list of kept files with their dates; otherwise the downloaded file is a kept file of the listing, fetched from `<directory>/<name>`, and no kept file is newer |

## Left out

- The FTP transport is left out: `Client.access`, `cd`, `list`, `downloadTo` and `close`. These are calls into the `basic-ftp` library. The listing is a parameter of `CliListing.Run`, and the download is the `Download` action it returns.
- The promise chain, `console.log` and `console.error`, `require.main` and `argv`, and the local destination `resolve(cwd(), name)` are left out. They are I/O; the `Download` action carries the chosen file instead.
- `getSeries` throws before the promise chain starts, so that error escapes `.catch`. The model reports it as `Err(MalformedSpec)` like the others.
- JsText.Number: JavaScript's `Number` also accepts surrounding whitespace, a sign, a decimal point, an exponent, hexadecimal or binary prefixes and `Infinity`. The model reads all of those as NaN, so a release argument such as ` 15` or `15.0` matches nothing here.
- Full `Date` semantics are left out: the time zone, daylight saving and the millisecond epoch. Overflowing days, hours and minutes are not carried over either; only the month is normalised. So 30 February stays in February, and hour 24 from `12:30PM` stays on its own day. This moves some files across a quarter boundary. For example, `03-31-24 12:30PM` is in quarter `2024-01` in the model (`Cli.QuarterEdgeAsWritten`). JavaScript rolls it over to 1 April 00:30 and drops it from that quarter.
- Cli.ParseDate: `None` stands for both an Invalid Date (NaN fields) and the TypeError of a timestamp without a space. The two are not told apart.
- CliListing.ListMatching: requires that every entry passing the release test has a timestamp that parses, as parseDate's documented input format says. This excludes two kinds of release-matching entry, whatever the quarter argument. One kind has a field that reads as NaN. The source drops such an entry under a concrete quarter; under a wildcard quarter its comparator returns NaN and the sort order is up to the engine. The other kind is a timestamp without a space. `parseDate` throws on it and ends the whole run.
- CliListing.Run: carries the same requirement on timestamps as CliListing.ListMatching.
- CliListing.SortNewestFirst: JavaScript's sort is stable. The model's insertion keeps equal dates in listing order, but no contract states this.
- NodePath.ParsedName: a file name is taken as a single path component. The FTP listing gives bare names, so directory separators and trailing slashes are not handled.
- Strings are sequences of Unicode code points, while JavaScript's `length`, indexing and `substring` count UTF-16 code units. For a name holding a character outside the Basic Multilingual Plane, the model's lengths and positions differ from the source's. This changes `Cli.GetRelease`'s six-character test and which character it looks up. For example, `1` followed by an emoji and `000` is 5 code points but 6 UTF-16 units. 3GPP archive names are ASCII, where the two counts agree.
- The directory entries' other fields (size, type, permissions, owner, group, link) are carried along unchanged by the spread in the source. They are not modelled.
- `dist/lib.d.ts` declares `getSpec` without a body, so there is nothing to model.
