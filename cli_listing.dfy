/** The body of the command-line tool once the archive directory is listed:
    the filter that keeps files of the requested release and quarter, the
    map that attaches each file's date, the sort that puts the newest file
    first, and the choice between printing the list and downloading the
    newest file. The directory listing itself is a parameter. */
module CliListing {
  import opened JsText
  import opened Cli

  /** A directory entry as the FTP client lists it. Its other fields
      (size, type, permissions, owner) ride along unchanged. */
  datatype FileInfo = FileInfo(name: string, rawModifiedAt: string)

  /** A kept entry with its parsed date attached: `{ ...fileInfo, date }`. */
  datatype Listed = Listed(info: FileInfo, date: DateTime)

  // ----------------------------------------------------------------- filter

  /** The release test: a wildcard passes everything; otherwise the file's
      release must equal `Number(rel)`, which an undefined or NaN release
      never does. */
  predicate ReleaseMatches(release: Option<nat>, rel: string) {
    rel == WildCard || (release.Some? && Number(rel) == release)
  }

  /** The date test: a wildcard passes everything; otherwise the file's date
      must lie in the quarter's window, and a quarter or a timestamp that
      reads as NaN keeps nothing. */
  predicate DateMatches(raw: string, quarter: string) {
    || quarter == WildCard
    || match (ParseQuarter(quarter), ParseDate(raw))
       case (Some(q), Some(d)) => InQuarter(d, q)
       case _ => false
  }

  /** The file's name has a version suffix and its release matches. */
  predicate PassesRelease(e: FileInfo, rel: string) {
    match VersionOf(e.name)
    case Err(_) => false
    case Ok(version) => ReleaseMatches(GetRelease(version), rel)
  }

  /** The filter callback keeps the entry. */
  predicate Kept(e: FileInfo, rel: string, quarter: string) {
    PassesRelease(e, rel) && DateMatches(e.rawModifiedAt, quarter)
  }

  /** Every listed name has a hyphen, so the filter callback never throws. */
  predicate AllNamed(entries: seq<FileInfo>) {
    forall e | e in entries :: VersionOf(e.name).Ok?
  }

  /** The entries whose date is read carry a timestamp in the server's
      `MM-DD-YY hh:mmAM` format. */
  predicate DatesReadable(entries: seq<FileInfo>, rel: string) {
    forall e | e in entries && PassesRelease(e, rel) :: ParseDate(e.rawModifiedAt).Some?
  }

  /** `list.filter(callback)` for a callback that throws on the entries
      `named` rejects and otherwise answers `keep`: it keeps the accepted
      entries in order, and the first rejected entry ends it with an error. */
  function FilterBy(entries: seq<FileInfo>, named: FileInfo -> bool, keep: FileInfo -> bool): (r: Result<seq<FileInfo>>)
    ensures r.Ok? <==> forall e | e in entries :: named(e)
    ensures r.Err? ==> r.error == MalformedFileName
    ensures r.Ok? ==> forall e ::
      multiset(r.value)[e] == if keep(e) then multiset(entries)[e] else 0
  {
    if entries == [] then Ok([])
    else if !named(entries[0]) then Err(MalformedFileName)
    else
      assert entries == [entries[0]] + entries[1..];
      match FilterBy(entries[1..], named, keep)
      case Err(e) => Err(e)
      case Ok(kept) => Ok(if keep(entries[0]) then [entries[0]] + kept else kept)
  }

  /** `fileInfoList.filter(callback)` with the tool's callback: the entries
      it keeps, in order; an entry whose name has no hyphen makes it throw. */
  function Filter(entries: seq<FileInfo>, rel: string, quarter: string): (r: Result<seq<FileInfo>>)
    ensures r.Err? <==> !AllNamed(entries)
    ensures r.Err? ==> r.error == MalformedFileName
    ensures r.Ok? ==> forall e ::
      multiset(r.value)[e] == if Kept(e, rel, quarter) then multiset(entries)[e] else 0
  {
    FilterBy(entries, (e: FileInfo) => VersionOf(e.name).Ok?, (e: FileInfo) => Kept(e, rel, quarter))
  }

  // -------------------------------------------------------------------- map

  /** The date `parseDate(rawModifiedAt)` of an entry whose timestamp reads. */
  function DateOf(e: FileInfo): (d: DateTime)
    requires ParseDate(e.rawModifiedAt).Some?
    ensures ParseDate(e.rawModifiedAt) == Some(d)
  {
    ParseDate(e.rawModifiedAt).value
  }

  /** `.map(fileInfo => ({ ...fileInfo, date: parseDate(...) }))`. */
  function WithDates(kept: seq<FileInfo>): (r: seq<Listed>)
    requires forall e | e in kept :: ParseDate(e.rawModifiedAt).Some?
    ensures forall x ::
      multiset(r)[x] == if ParseDate(x.info.rawModifiedAt) == Some(x.date) then multiset(kept)[x.info] else 0
  {
    if kept == [] then []
    else
      assert kept == [kept[0]] + kept[1..];
      [Listed(kept[0], DateOf(kept[0]))] + WithDates(kept[1..])
  }

  // ------------------------------------------------------------------- sort

  /** Newest first: no entry is dated after an entry before it. */
  predicate NewestFirst(s: seq<Listed>) {
    forall i, j :: 0 <= i < j < |s| ==> NotLater(s[j].date, s[i].date)
  }

  /** Inserts `x` before the first entry not later than it. */
  function Insert(x: Listed, s: seq<Listed>): (r: seq<Listed>)
    requires NewestFirst(s)
    ensures NewestFirst(r)
    ensures multiset(r) == multiset(s) + multiset{x}
  {
    if s == [] then [x]
    else if NotLater(s[0].date, x.date) then
      forall j | 0 <= j < |s| ensures NotLater(s[j].date, x.date) {
        if j > 0 { NotLaterTransitive(s[j].date, s[0].date, x.date); }
      }
      [x] + s
    else
      NotLaterTotal(s[0].date, x.date);
      var r := [s[0]] + Insert(x, s[1..]);
      assert s == [s[0]] + s[1..];
      forall j | 1 <= j < |r| ensures NotLater(r[j].date, s[0].date) {
        assert r[j] in multiset(Insert(x, s[1..]));
        if r[j] != x {
          assert r[j] in s[1..];
        }
      }
      r
  }

  /** `.sort((a, b) => b.date - a.date)`: the same entries, newest first. */
  function SortNewestFirst(s: seq<Listed>): (r: seq<Listed>)
    ensures NewestFirst(r)
    ensures multiset(r) == multiset(s)
  {
    if s == [] then []
    else
      assert s == [s[0]] + s[1..];
      Insert(s[0], SortNewestFirst(s[1..]))
  }

  /** The first entry of a newest-first list is not older than any entry. */
  lemma NewestFirstHead(s: seq<Listed>, x: Listed)
    requires NewestFirst(s) && x in s
    ensures NotLater(x.date, s[0].date)
  {
    var k :| 0 <= k < |s| && s[k] == x;
    if k == 0 {
      NotLaterTotal(x.date, x.date);
    }
  }

  // --------------------------------------------------------------- pipeline

  /** The filter, map and sort chain over one directory listing. */
  function ListMatching(entries: seq<FileInfo>, rel: string, quarter: string): (r: Result<seq<Listed>>)
    requires DatesReadable(entries, rel)
    ensures r.Err? <==> !AllNamed(entries)
    ensures r.Err? ==> r.error == MalformedFileName
    ensures r.Ok? ==> NewestFirst(r.value)
    ensures r.Ok? ==> forall x ::
      multiset(r.value)[x] ==
        if Kept(x.info, rel, quarter) && ParseDate(x.info.rawModifiedAt) == Some(x.date)
        then multiset(entries)[x.info] else 0
  {
    match Filter(entries, rel, quarter)
    case Err(e) => Err(e)
    case Ok(kept) =>
      assert forall e | e in kept :: ParseDate(e.rawModifiedAt).Some? by {
        forall e | e in kept ensures ParseDate(e.rawModifiedAt).Some? {
          assert multiset(kept)[e] > 0;
        }
      }
      Ok(SortNewestFirst(WithDates(kept)))
  }

  /** Every file of the list passed both tests: with a concrete release its
      release is `Number(rel)` (so a file whose release is undefined or NaN
      never appears), and with a concrete quarter its date lies in the
      quarter's window. Every file comes from the listing, with its date. */
  lemma ListedPassesFilters(entries: seq<FileInfo>, rel: string, quarter: string, x: Listed)
    requires DatesReadable(entries, rel)
    requires ListMatching(entries, rel, quarter).Ok? && x in ListMatching(entries, rel, quarter).value
    ensures x.info in entries && ParseDate(x.info.rawModifiedAt) == Some(x.date)
    ensures VersionOf(x.info.name).Ok?
    ensures rel != WildCard ==>
      && GetRelease(VersionOf(x.info.name).value).Some?
      && Number(rel) == GetRelease(VersionOf(x.info.name).value)
    ensures quarter != WildCard ==>
      && ParseQuarter(quarter).Some?
      && InQuarter(x.date, ParseQuarter(quarter).value)
  {
    var listed := ListMatching(entries, rel, quarter).value;
    assert multiset(listed)[x] > 0;
  }

  /** Every file of the listing that passes both tests is in the list, with its date. */
  lemma KeptIsListed(entries: seq<FileInfo>, rel: string, quarter: string, e: FileInfo)
    requires DatesReadable(entries, rel)
    requires ListMatching(entries, rel, quarter).Ok?
    requires e in entries && Kept(e, rel, quarter)
    ensures ParseDate(e.rawModifiedAt).Some?
    ensures Listed(e, DateOf(e)) in ListMatching(entries, rel, quarter).value
  {
    var listed := ListMatching(entries, rel, quarter).value;
    assert multiset(entries)[e] > 0;
    assert multiset(listed)[Listed(e, DateOf(e))] > 0;
  }

  /** With both filters off, every file whose name has a version is kept. */
  lemma WildcardsKeepEverything(e: FileInfo)
    ensures Kept(e, WildCard, WildCard) <==> VersionOf(e.name).Ok?
  {
  }

  // ------------------------------------------------------------------ result

  /** How a run ends once the list is built. */
  datatype Action =
    | PrintList(listed: seq<Listed>)                   // any release: the list is printed
    | Download(file: FileInfo, remotePath: string)     // one release: its newest file is fetched

  /** One run of the tool over the listing of the spec's archive directory:
      the directory from the spec number, the matching files newest first,
      then the list itself (wildcard release) or the newest file. */
  function Run(spec: string, rel: string, quarter: string, entries: seq<FileInfo>): (r: Result<Action>)
    requires DatesReadable(entries, rel)
    ensures r == Err(MalformedSpec) <==> '.' !in spec
    ensures r == Err(MalformedFileName) <==> '.' in spec && !AllNamed(entries)
    ensures r == Err(NotFound) <==>
      && '.' in spec && AllNamed(entries) && rel != WildCard
      && forall e | e in entries :: !Kept(e, rel, quarter)
    ensures r.Ok? && r.value.PrintList? ==>
      && rel == WildCard
      && r.value.listed == ListMatching(entries, rel, quarter).value
      && NewestFirst(r.value.listed)
      && forall x | x in r.value.listed :: x.info in entries && Kept(x.info, rel, quarter)
    ensures r.Ok? && r.value.Download? ==>
      && rel != WildCard
      && r.value.file in entries && Kept(r.value.file, rel, quarter)
      && r.value.remotePath == ArchivePath(spec).value + "/" + r.value.file.name
      && ParseDate(r.value.file.rawModifiedAt).Some?
      && forall e | e in entries && Kept(e, rel, quarter) :: NotLater(DateOf(e), DateOf(r.value.file))
  {
    match ArchivePath(spec)
    case Err(e) => Err(e)
    case Ok(path) =>
      match ListMatching(entries, rel, quarter)
      case Err(e) => Err(e)
      case Ok(listed) =>
        NoneKeptIffEmpty(entries, rel, quarter);
        if rel == WildCard then
          ListedAllPass(entries, rel, quarter);
          Ok(PrintList(listed))
        else if listed == [] then Err(NotFound)
        else
          NewestIsHead(entries, rel, quarter);
          Ok(Download(listed[0].info, path + "/" + listed[0].info.name))
  }

  lemma ListedAllPass(entries: seq<FileInfo>, rel: string, quarter: string)
    requires DatesReadable(entries, rel)
    requires ListMatching(entries, rel, quarter).Ok?
    ensures forall x | x in ListMatching(entries, rel, quarter).value ::
      x.info in entries && Kept(x.info, rel, quarter)
  {
    forall x | x in ListMatching(entries, rel, quarter).value
      ensures x.info in entries && Kept(x.info, rel, quarter)
    {
      ListedPassesFilters(entries, rel, quarter, x);
    }
  }

  /** The list is empty exactly when no file of the listing passes. */
  lemma NoneKeptIffEmpty(entries: seq<FileInfo>, rel: string, quarter: string)
    requires DatesReadable(entries, rel)
    requires ListMatching(entries, rel, quarter).Ok?
    ensures ListMatching(entries, rel, quarter).value == [] <==>
      forall e | e in entries :: !Kept(e, rel, quarter)
  {
    var listed := ListMatching(entries, rel, quarter).value;
    if listed != [] {
      ListedPassesFilters(entries, rel, quarter, listed[0]);
    }
    forall e | e in entries && Kept(e, rel, quarter) ensures listed != [] {
      KeptIsListed(entries, rel, quarter, e);
    }
  }

  /** The head of the list is a kept file of the listing not older than any other kept file. */
  lemma NewestIsHead(entries: seq<FileInfo>, rel: string, quarter: string)
    requires DatesReadable(entries, rel)
    requires ListMatching(entries, rel, quarter).Ok?
    requires ListMatching(entries, rel, quarter).value != []
    ensures var head := ListMatching(entries, rel, quarter).value[0];
      && head.info in entries && Kept(head.info, rel, quarter)
      && ParseDate(head.info.rawModifiedAt) == Some(head.date)
      && forall e' | e' in entries && Kept(e', rel, quarter) :: NotLater(DateOf(e'), head.date)
  {
    var listed := ListMatching(entries, rel, quarter).value;
    ListedPassesFilters(entries, rel, quarter, listed[0]);
    forall e' | e' in entries && Kept(e', rel, quarter) ensures NotLater(DateOf(e'), listed[0].date) {
      KeptIsListed(entries, rel, quarter, e');
      NewestFirstHead(listed, Listed(e', DateOf(e')));
    }
  }
}
