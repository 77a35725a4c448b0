/** Downloading one paper and renaming it (Nspider.py:128-154): refresh
    the crawler's snapshot, load the link in the browser, then poll the
    download directory a bounded number of times for a new `.pdf` entry,
    and rename the first one found to `<doi>.pdf`.

    The directory is an oracle: `listing(m)` is what `glob('*')` returns
    (paths, each ending in its file name) at the m-th `chk_new_file` call
    of the download, numbered from 0:
    call 0 is the refresh at Nspider.py:132, call 1 is the one inside
    `save_publication`, and calls 2, 3, ... are the polls. Sleeping is not
    modelled; only the number of polls is. */
module Download {
  import opened Wrappers
  import opened Identifiers
  import Crawler

  type Listing = nat -> seq<string>

  /** What call `m` (m >= 1) reports: the snapshot it compares against is
      the listing of the call before. */
  function ReportedAt(listing: Listing, m: nat): Option<string>
    requires m >= 1
  {
    Crawler.FirstNew(Crawler.Entries(listing(m - 1)), listing(m))
  }

  /** The report of every call; call 0 only refreshes the snapshot. */
  function Reports(listing: Listing): nat -> Option<string>
  {
    m => if m >= 1 then ReportedAt(listing, m) else None
  }

  /** A report that names an entry the test `accept` admits. */
  predicate Accepts(accept: string -> bool, f: Option<string>)
  {
    f.Some? && accept(f.value)
  }

  /** No call from `lo` up to, not including, `hi` reports an entry that
      `accept` admits. */
  predicate NoneAccepted(reports: nat -> Option<string>, accept: string -> bool, lo: nat, hi: nat)
  {
    forall m :: lo <= m < hi ==> !Accepts(accept, reports(m))
  }

  /** The poll loop's test `'.pdf' == name_new_file.suffix`. */
  predicate IsPdfPath(path: string)
  {
    Suffix(path) == ".pdf"
  }

  /** A report the poll loop accepts: a new entry with suffix `.pdf`. */
  predicate IsPdf(f: Option<string>)
  {
    Accepts(IsPdfPath, f)
  }

  /** No call from `lo` up to, not including, `hi` reports a PDF. */
  predicate NoPdfBetween(reports: nat -> Option<string>, lo: nat, hi: nat)
  {
    NoneAccepted(reports, IsPdfPath, lo, hi)
  }

  datatype Poll = Poll(file: Option<string>, polls: nat)

  /** The `while` loop of Nspider.py:140-146 from poll `n` on, after `n`
      polls that found no entry `accept` admits (for the download, a PDF). Poll `k` (numbered from 1) is `chk_new_file`
      call `k + 1`, and by `ChkAtCall` each call reports what `Reports`
      says and leaves the snapshot at its own listing, which is what the
      next call compares against. The loop stops at the first poll that
      reports an admitted entry, and otherwise after `limit` polls. */
  function PollLoop(reports: nat -> Option<string>, accept: string -> bool, n: nat, limit: nat): (r: Poll)
    requires n <= limit
    ensures n <= r.polls <= limit
    ensures r.file.None? ==> r.polls == limit && NoneAccepted(reports, accept, n + 2, limit + 2)
    ensures r.file.Some? ==>
              && n < r.polls
              && NoneAccepted(reports, accept, n + 2, r.polls + 1)
              && Accepts(accept, reports(r.polls + 1))
              && r.file == reports(r.polls + 1)
    decreases limit - n
  {
    if n == limit then Poll(None, n)
    else if Accepts(accept, reports(n + 2)) then Poll(reports(n + 2), n + 1)
    else PollLoop(reports, accept, n + 1, limit)
  }

  /** Once the snapshot is the previous call's listing, `chk_new_file`
      reports what call `m` reports and moves the snapshot on. */
  lemma ChkAtCall(w: Crawler.Watcher, listing: Listing, m: nat)
    requires m >= 1
    requires w.snapshot == Crawler.Entries(listing(m - 1))
    ensures Crawler.ChkNewFile(w, listing(m)) == Crawler.Check(ReportedAt(listing, m), Crawler.Watcher(Crawler.Entries(listing(m))))
  {
  }

  datatype Outcome = Outcome(status: bool, file: Option<string>, renamedTo: Option<string>,
                             polls: nat, watcher: Crawler.Watcher)

  /** `_download_paper_and_rename(doi, link)`, the browser showing `page`
      once the link is loaded. A crawler error propagates. On success the
      status is whether a PDF was found, it was found at the first poll
      that reported one, no more than `limit` polls were made (exactly
      `limit` when none was found), and a found file is renamed to the
      canonical name of the DOI. */
  function DownloadPaper(doi: string, page: Crawler.Page, w: Crawler.Watcher, listing: Listing, limit: nat): (r: Result<Outcome>)
    ensures r.Success? <==> Crawler.Execute(page, Crawler.ChkNewFile(w, listing(0)).watcher, listing(1)).Success?
    ensures r.Success? ==>
              && r.value.status == r.value.file.Some?
              && r.value.polls <= limit
              && (r.value.file.None? ==> r.value.polls == limit && NoPdfBetween(Reports(listing), 2, limit + 2))
              && (r.value.file.Some? ==>
                    && 1 <= r.value.polls
                    && NoPdfBetween(Reports(listing), 2, r.value.polls + 1)
                    && IsPdf(ReportedAt(listing, r.value.polls + 1))
                    && r.value.file == ReportedAt(listing, r.value.polls + 1))
              && r.value.renamedTo == (if r.value.status then Some(CanonicalFileName(doi)) else None)
  {
    var refreshed := Crawler.ChkNewFile(w, listing(0)).watcher;
    match Crawler.Execute(page, refreshed, listing(1))
    case Failure(e) => Failure(e)
    case Success(ex) =>
      var p := PollLoop(Reports(listing), IsPdfPath, 0, limit);
      var renamed := if p.file.Some? then Some(CanonicalFileName(doi)) else None;
      Success(Outcome(p.file.Some?, p.file, renamed, p.polls, Crawler.Watcher(Crawler.Entries(listing(p.polls + 1)))))
  }

  /** The refresh at the start makes the outcome independent of whatever
      the crawler had seen before. */
  lemma DownloadIgnoresStaleSnapshot(doi: string, page: Crawler.Page, w1: Crawler.Watcher, w2: Crawler.Watcher,
                                     listing: Listing, limit: nat)
    ensures DownloadPaper(doi, page, w1, listing, limit) == DownloadPaper(doi, page, w2, listing, limit)
  {
    var a := Crawler.ChkNewFile(w1, listing(0)).watcher;
    var b := Crawler.ChkNewFile(w2, listing(0)).watcher;
    assert a.snapshot == b.snapshot;
  }

  /** A PDF that is already in the directory when `save_publication` takes
      its snapshot is absorbed into it: if nothing changes afterwards, the
      polls never report it and the download counts as failed. */
  lemma EarlyArrivalIsMissed(doi: string, page: Crawler.Page, w: Crawler.Watcher, listing: Listing, limit: nat)
    requires forall m :: 1 <= m <= limit + 1 ==> listing(m) == listing(1)
    requires DownloadPaper(doi, page, w, listing, limit).Success?
    ensures !DownloadPaper(doi, page, w, listing, limit).value.status
    ensures DownloadPaper(doi, page, w, listing, limit).value.polls == limit
  {
  }

  /** The name the download renames to is one the poll loop itself would
      recognise as a PDF exactly when the DOI has a non-empty last `/`
      segment; an escaped DOI has no `/`, so for a non-empty stored DOI the
      `load_publication` path always has the `.pdf` suffix. */
  lemma RenamedFileIsPdf(doi: string, page: Crawler.Page, w: Crawler.Watcher, listing: Listing, limit: nat)
    requires DownloadPaper(doi, page, w, listing, limit).Success?
    requires DownloadPaper(doi, page, w, listing, limit).value.status
    ensures Suffix(DownloadPaper(doi, page, w, listing, limit).value.renamedTo.value) == ".pdf" <==> LastSegment(doi) != []
  {
    CanonicalNameIsPdf(doi);
  }
}
