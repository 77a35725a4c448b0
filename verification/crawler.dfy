/** The browser-side paper crawler (experiment/PaperCrawler.py): the
    snapshot-diff detector that reports a newly downloaded file, the
    domain extraction and per-domain dispatch table, the two ways a PDF
    link is found on a page, the composition of the final URL, and the
    snapshot side effect of `save_publication`. The browser itself is
    replaced by what it shows: the current URL, the links of the page and
    the href behind each XPath. */
module Crawler {
  import opened Wrappers
  import opened Text
  import Identifiers

  // ---------------------------------------------------------------------
  // New-file detection (PaperCrawler.py:90, PaperCrawler.py:121-130)

  /** The crawler's `file_list`: the directory entries it has already seen. */
  datatype Watcher = Watcher(snapshot: set<string>)

  function Entries(listing: seq<string>): set<string>
  {
    set i | 0 <= i < |listing| :: listing[i]
  }

  /** The snapshot taken when the crawler is built. */
  function InitialWatcher(listing: seq<string>): (w: Watcher)
    ensures forall x :: x in w.snapshot <==> x in listing
  {
    Watcher(Entries(listing))
  }

  /** The first entry of the listing not in the snapshot. Python's
      `set.pop()` picks an arbitrary one; the model picks the first in
      listing order. */
  function FirstNew(snapshot: set<string>, listing: seq<string>): (r: Option<string>)
    ensures r.Some? ==> r.value in listing && r.value !in snapshot
    ensures r.None? <==> forall i :: 0 <= i < |listing| ==> listing[i] in snapshot
  {
    if listing == [] then None
    else if listing[0] !in snapshot then Some(listing[0])
    else
      var r := FirstNew(snapshot, listing[1..]);
      assert forall i :: 1 <= i < |listing| ==> listing[i] == listing[1..][i - 1];
      r
  }

  /** The reported path: a new entry, or `Path('')` (printed as the empty
      name) when nothing appeared. */
  datatype Check = Check(found: Option<string>, watcher: Watcher)

  function PathText(found: Option<string>): string
  {
    match found
    case Some(name) => name
    case None => ""
  }

  /** `chk_new_file`: one entry that is in the current listing but not in
      the snapshot, if there is one; and the snapshot becomes the listing. */
  function ChkNewFile(w: Watcher, listing: seq<string>): (r: Check)
    ensures r.found.Some? ==> r.found.value in listing && r.found.value !in w.snapshot
    ensures r.found.None? <==> forall x :: x in listing ==> x in w.snapshot
    ensures r.found.None? ==> Identifiers.Suffix(PathText(r.found)) == ""
    ensures forall x :: x in r.watcher.snapshot <==> x in listing
  {
    Check(FirstNew(w.snapshot, listing), Watcher(Entries(listing)))
  }

  /** An unchanged directory reports nothing on the next call: whatever
      appeared at once, at most one entry of it is ever reported. */
  lemma ChkNewFileIdle(w: Watcher, listing: seq<string>)
    ensures ChkNewFile(ChkNewFile(w, listing).watcher, listing).found.None?
  {
    var w1 := ChkNewFile(w, listing).watcher;
    assert forall x :: x in listing ==> x in w1.snapshot;
  }

  /** Only the listing matters after a call: two watchers that have seen
      the same listing report the same thing from then on. */
  lemma ChkNewFileForgetsHistory(w1: Watcher, w2: Watcher, listing: seq<string>, next: seq<string>)
    ensures ChkNewFile(ChkNewFile(w1, listing).watcher, next) == ChkNewFile(ChkNewFile(w2, listing).watcher, next)
  {
    var a := ChkNewFile(w1, listing).watcher;
    var b := ChkNewFile(w2, listing).watcher;
    assert a.snapshot == b.snapshot;
  }

  // ---------------------------------------------------------------------
  // Domain extraction: the first match of (?<=https://)[\.\w]+ in the
  // current URL (PaperCrawler.py:88, PaperCrawler.py:174)

  const HttpsPrefix: string := "https://"

  predicate DomainChar(c: char) { c == '.' || IsWordChar(c) }

  /** A match can start at `i`: the look-behind sees `https://` and the
      character at `i` is in the class. */
  predicate MatchStartAt(url: string, i: int)
  {
    8 <= i < |url| && url[i - 8..i] == HttpsPrefix && DomainChar(url[i])
  }

  function FirstMatchStart(url: string, from: nat): (r: Option<nat>)
    ensures r.Some? ==> from <= r.value && MatchStartAt(url, r.value)
                        && forall j :: from <= j < r.value ==> !MatchStartAt(url, j)
    ensures r.None? ==> forall j :: from <= j ==> !MatchStartAt(url, j)
    decreases |url| - from
  {
    if from >= |url| then None
    else if MatchStartAt(url, from) then Some(from)
    else FirstMatchStart(url, from + 1)
  }

  /** End of the maximal run of `[\.\w]` from `i`. */
  function RunEnd(url: string, i: nat): (e: nat)
    requires i <= |url|
    ensures i <= e <= |url|
    ensures forall k :: i <= k < e ==> DomainChar(url[k])
    ensures e == |url| || !DomainChar(url[e])
    decreases |url| - i
  {
    if i == |url| || !DomainChar(url[i]) then i else RunEnd(url, i + 1)
  }

  /** `findall(url)[0]`: the greedy run at the first position where a match
      can start; `IndexError` when there is none. */
  function DomainOf(url: string): (r: Result<string>)
    ensures r.Success? <==> exists i :: MatchStartAt(url, i)
    ensures r.Success? ==> r.value != [] && forall k :: 0 <= k < |r.value| ==> DomainChar(r.value[k])
    ensures r.Success? ==> Contains(url, HttpsPrefix + r.value)
    ensures r.Success? ==> exists i :: MatchStartAt(url, i) && (forall j :: j < i ==> !MatchStartAt(url, j))
                                       && i + |r.value| <= |url| && url[i..i + |r.value|] == r.value
                                       && (i + |r.value| == |url| || !DomainChar(url[i + |r.value|]))
  {
    match FirstMatchStart(url, 0)
    case None => Failure("IndexError")
    case Some(i) =>
      var e := RunEnd(url, i);
      var d := url[i..e];
      assert url == url[..i - 8] + (HttpsPrefix + d) + url[e..];
      ContainsInfix(url[..i - 8], HttpsPrefix + d, url[e..]);
      Success(d)
  }

  /** A URL built as `https://<domain>/...` yields its domain back. */
  lemma DomainOfComposed(domain: string, rest: string)
    requires domain != [] && forall k :: 0 <= k < |domain| ==> DomainChar(domain[k])
    requires rest == [] || !DomainChar(rest[0])
    ensures DomainOf(HttpsPrefix + domain + rest) == Success(domain)
  {
    var url := HttpsPrefix + domain + rest;
    FirstStartAfterPrefix(url);
    RunEndOfComposed(domain, rest, url);
    assert url[8..8 + |domain|] == domain;
    assert DomainOf(url) == Success(url[8..8 + |domain|]);
  }

  lemma FirstStartAfterPrefix(url: string)
    requires 8 < |url| && url[..8] == HttpsPrefix && DomainChar(url[8])
    ensures FirstMatchStart(url, 0) == Some(8)
  {
    assert MatchStartAt(url, 8);
  }

  lemma RunEndOfComposed(domain: string, rest: string, url: string)
    requires forall k :: 0 <= k < |domain| ==> DomainChar(domain[k])
    requires rest == [] || !DomainChar(rest[0])
    requires url == HttpsPrefix + domain + rest
    ensures RunEnd(url, 8) == 8 + |domain|
  {
    assert forall k :: 8 <= k < 8 + |domain| ==> url[k] == domain[k - 8];
    assert url[8 + |domain|..] == rest;
  }

  // ---------------------------------------------------------------------
  // The dispatch table (PaperCrawler.py:33-86)

  /** How the PDF link of a domain's landing page is found: the first link
      whose href matches `.*.pdf`, or clicking through a list of XPaths and
      reading the href of the last one. */
  datatype Strategy = PdfHref | ClickThrough(xpaths: seq<string>)

  const PrimaryDomain: string := "www.ncbi.nlm.nih.gov"

  const DispatchTable: seq<(string, Strategy)> := [
    ("www.sciencedirect.com", ClickThrough([
      "//*[@id=\"pdfLink\"]",
      "//*[@id='popover-content-download-pdf-popover']/div/div/a[1]"])),
    (PrimaryDomain, PdfHref),
    ("academic.oup.com", PdfHref),
    ("journals.plos.org", ClickThrough(["//*[@id=\"downloadPdf\"]"])),
    ("www.jneurosci.org", PdfHref),
    ("www.mdpi.com", PdfHref),
    ("stke.sciencemag.org", PdfHref),
    ("dmm.biologists.org", ClickThrough([
      "//*[@id=\"block-system-main\"]/div/div/div/div/div[1]/div/div/div[5]/div/div/ul/li[6]/a[1]"])),
    ("www.pnas.org", PdfHref),
    ("elifesciences.org", ClickThrough([
      "//*[@id=\"maincontent\"]/header/a",
      "//*[@id=\"downloads\"]/ul[1]/li[1]/a"]))
  ]

  /** `by_domain_pdf_link_getter[domain]`: `KeyError` for a domain that is
      not in the table. */
  function StrategyFor(domain: string): (r: Result<Strategy>)
    ensures r.Success? <==> exists k :: 0 <= k < |DispatchTable| && DispatchTable[k].0 == domain
    ensures r.Success? ==> exists k :: 0 <= k < |DispatchTable| && DispatchTable[k] == (domain, r.value)
    ensures r.Failure? ==> r.error == "KeyError"
  {
    Lookup(DispatchTable, domain)
  }

  function Lookup(table: seq<(string, Strategy)>, key: string): (r: Result<Strategy>)
    ensures r.Success? <==> exists k :: 0 <= k < |table| && table[k].0 == key
    ensures r.Success? ==> exists k :: 0 <= k < |table| && table[k] == (key, r.value)
                                       && forall j :: 0 <= j < k ==> table[j].0 != key
    ensures r.Failure? ==> r.error == "KeyError"
  {
    if table == [] then Failure("KeyError")
    else if table[0].0 == key then Success(table[0].1)
    else
      var r := Lookup(table[1..], key);
      assert forall k :: 1 <= k < |table| ==> table[k] == table[1..][k - 1];
      if r.Success? then
        var k :| 0 <= k < |table[1..]| && table[1..][k] == (key, r.value)
                 && forall j :: 0 <= j < k ==> table[1..][j].0 != key;
        assert table[k + 1] == (key, r.value);
        r
      else r
  }

  /** The table has ten distinct domains, the primary one among them;
      every click-through strategy has at least one XPath; and every
      domain is one the extraction regex can produce. */
  lemma DispatchTableWellFormed()
    ensures |DispatchTable| == 10
    ensures forall j, k :: 0 <= j < k < |DispatchTable| ==> DispatchTable[j].0 != DispatchTable[k].0
    ensures StrategyFor(PrimaryDomain) == Success(PdfHref)
    ensures forall k :: 0 <= k < |DispatchTable| && DispatchTable[k].1.ClickThrough? ==>
              |DispatchTable[k].1.xpaths| >= 1
    ensures forall k :: 0 <= k < |DispatchTable| ==>
              DispatchTable[k].0 != [] && forall i :: 0 <= i < |DispatchTable[k].0| ==> DomainChar(DispatchTable[k].0[i])
  {
    PrimaryDomainListed();
    DispatchDomainsDistinct();
    DispatchDomainsExtractable();
    DispatchXPathsPresent();
  }

  lemma DispatchXPathsPresent()
    ensures |DispatchTable| == 10
    ensures forall k :: 0 <= k < |DispatchTable| && DispatchTable[k].1.ClickThrough? ==>
              |DispatchTable[k].1.xpaths| >= 1
  {
  }

  lemma DispatchDomainsDistinct()
    ensures forall j, k :: 0 <= j < k < |DispatchTable| ==> DispatchTable[j].0 != DispatchTable[k].0
  {
  }

  lemma DispatchDomainsExtractable()
    ensures forall k :: 0 <= k < |DispatchTable| ==>
              DispatchTable[k].0 != [] && forall i :: 0 <= i < |DispatchTable[k].0| ==> DomainChar(DispatchTable[k].0[i])
  {
  }

  lemma PrimaryDomainListed()
    ensures StrategyFor(PrimaryDomain) == Success(PdfHref)
    ensures PrimaryDomain != [] && forall i :: 0 <= i < |PrimaryDomain| ==> DomainChar(PrimaryDomain[i])
  {
    assert DispatchTable[1] == (PrimaryDomain, PdfHref);
    assert DispatchTable[0].0 != PrimaryDomain;
  }

  // ---------------------------------------------------------------------
  // Finding the PDF link (PaperCrawler.py:133-144)

  /** `re:test(@href, ".*.pdf")`: some character other than a newline is
      followed by `pdf`. */
  predicate LooksLikePdf(href: string)
  {
    exists i :: 1 <= i < |href| && PdfAt(href, i)
  }

  predicate PdfAt(href: string, i: int)
  {
    1 <= i && i + 3 <= |href| && href[i - 1] != '\n' && href[i..i + 3] == "pdf"
  }

  /** `get_link_xpath_pdf`: the first href of the page, in document order,
      that looks like a PDF; `IndexError` when none does. */
  function PdfHrefLink(hrefs: seq<string>): (r: Result<string>)
    ensures r.Success? <==> exists k :: 0 <= k < |hrefs| && LooksLikePdf(hrefs[k])
    ensures r.Success? ==> exists k :: 0 <= k < |hrefs| && hrefs[k] == r.value && LooksLikePdf(r.value)
                                       && forall j :: 0 <= j < k ==> !LooksLikePdf(hrefs[j])
  {
    if hrefs == [] then Failure("IndexError")
    else if LooksLikePdf(hrefs[0]) then Success(hrefs[0])
    else
      var r := PdfHrefLink(hrefs[1..]);
      assert forall k :: 1 <= k < |hrefs| ==> hrefs[k] == hrefs[1..][k - 1];
      if r.Success? then
        var k :| 0 <= k < |hrefs[1..]| && hrefs[1..][k] == r.value && LooksLikePdf(r.value)
                 && forall j :: 0 <= j < k ==> !LooksLikePdf(hrefs[1..][j]);
        assert hrefs[k + 1] == r.value;
        r
      else r
  }

  /** The clicks performed and the link read by `get_link_xpath_trip`. */
  datatype Trip = Trip(clicks: seq<string>, link: string)

  /** `get_link_xpath_trip`: every XPath but the last is clicked, in order,
      and the href behind the last one is returned. An empty list performs
      no click and raises `IndexError` on `[-1]`. */
  function ClickThroughLink(xpaths: seq<string>, hrefOf: string -> string): (r: Result<Trip>)
    ensures r.Success? <==> xpaths != []
    ensures r.Success? ==> r.value.clicks + [xpaths[|xpaths| - 1]] == xpaths
    ensures r.Success? ==> r.value.link == hrefOf(xpaths[|xpaths| - 1])
    ensures r.Success? && |xpaths| == 1 ==> r.value.clicks == []
  {
    if xpaths == [] then Failure("IndexError")
    else
      var clicks := if 1 < |xpaths| then xpaths[..|xpaths| - 1] else [];
      assert xpaths == xpaths[..|xpaths| - 1] + [xpaths[|xpaths| - 1]];
      Success(Trip(clicks, hrefOf(xpaths[|xpaths| - 1])))
  }

  // ---------------------------------------------------------------------
  // Composing the URL to the publication (PaperCrawler.py:178-183)

  /** The domain used as a regular expression matches `s` at `i`: every
      `.` of the domain matches any character but a newline, every other
      character of the domain (a word character) matches itself. */
  predicate PatternAt(pattern: string, s: string, i: nat)
  {
    i + |pattern| <= |s| &&
    forall k :: 0 <= k < |pattern| ==>
      if pattern[k] == '.' then s[i + k] != '\n' else s[i + k] == pattern[k]
  }

  /** `bool(re.search(domain, link))`. */
  predicate PatternFound(pattern: string, s: string)
  {
    exists i: nat :: i <= |s| && PatternAt(pattern, s, i)
  }

  function SearchFrom(pattern: string, s: string, from: nat): (r: bool)
    ensures r <==> exists i: nat :: from <= i <= |s| && PatternAt(pattern, s, i)
    decreases |s| - from
  {
    if from > |s| then false
    else PatternAt(pattern, s, from) || SearchFrom(pattern, s, from + 1)
  }

  /** The PDF link as is when the domain pattern occurs in it, otherwise
      the link appended to `https://<domain>`. */
  function ComposeUrl(domain: string, pdfLink: string): (r: string)
    requires forall k :: 0 <= k < |domain| ==> DomainChar(domain[k])
    ensures PatternFound(domain, pdfLink) ==> r == pdfLink
    ensures !PatternFound(domain, pdfLink) ==> r == HttpsPrefix + domain + pdfLink
    ensures PatternFound(domain, r)
  {
    if SearchFrom(domain, pdfLink, 0) then pdfLink
    else
      var url := HttpsPrefix + domain + pdfLink;
      assert PatternAt(domain, url, 8) by {
        assert forall k :: 0 <= k < |domain| ==> url[8 + k] == domain[k];
      }
      url
  }

  /** A link that spells out the domain is used as is. */
  lemma LiteralDomainKeepsLink(domain: string, before: string, after: string)
    requires forall k :: 0 <= k < |domain| ==> DomainChar(domain[k])
    ensures ComposeUrl(domain, before + domain + after) == before + domain + after
  {
    var s := before + domain + after;
    assert forall k :: 0 <= k < |domain| ==> s[|before| + k] == domain[k];
    assert PatternAt(domain, s, |before|);
  }

  /** Because the dots of the domain are not escaped, a relative link that
      merely resembles the domain is taken for a full one. */
  lemma UnescapedDotsAcceptLookalike()
    ensures ComposeUrl("a.b", "/aXb.pdf") == "/aXb.pdf"
    ensures !Contains("/aXb.pdf", "a.b")
  {
    assert PatternAt("a.b", "/aXb.pdf", 1);
    NotContainsExample();
  }

  lemma NotContainsExample()
    ensures !Contains("/aXb.pdf", "a.b")
  {
    var s := "/aXb.pdf";
    assert !("a.b" <= s) by { assert s[0] != 'a'; }
    assert !("a.b" <= s[1..]) by { assert s[1..][1] != '.'; }
    assert forall k :: 2 <= k <= |s| ==> !("a.b" <= s[k..]) by {
      forall k | 2 <= k <= |s| ensures !("a.b" <= s[k..]) {
        if |s[k..]| >= 3 {
          assert s[k..][0] == s[k];
          assert s[k] != 'a';
        }
      }
    }
    ContainsIff(s, "a.b");
  }

  // ---------------------------------------------------------------------
  // Saving the publication (PaperCrawler.py:147-153)

  datatype Save = Save(watcher: Watcher, sendsPrint: bool)

  /** `save_publication` as written: it advances the snapshot through
      `chk_new_file`, but `bool(Path(...))` is true for every path, the
      empty one included, so the print shortcut is never sent. */
  function SavePublicationAsWritten(w: Watcher, listing: seq<string>): (r: Save)
    ensures forall x :: x in r.watcher.snapshot <==> x in listing
    ensures !r.sendsPrint
  {
    var c := ChkNewFile(w, listing);
    Save(c.watcher, !PathIsTruthy(PathText(c.found)))
  }

  /** `bool(p)` for a `pathlib.Path`: paths define no truth value, so every
      path, `Path('')` included, is truthy. */
  predicate PathIsTruthy(p: string) { true }

  /** `save_publication` as intended: print the page to PDF exactly when no
      new file has already arrived. */
  function SavePublication(w: Watcher, listing: seq<string>): (r: Save)
    ensures forall x :: x in r.watcher.snapshot <==> x in listing
    ensures r.sendsPrint <==> forall x :: x in listing ==> x in w.snapshot
  {
    var c := ChkNewFile(w, listing);
    Save(c.watcher, c.found.None?)
  }

  /** The discrepancy: with nothing new in the directory the intended code
      prints the page, the written code does not. */
  lemma SaveNeverPrintsAsWritten(w: Watcher, listing: seq<string>)
    requires forall x :: x in listing ==> x in w.snapshot
    ensures SavePublication(w, listing).sendsPrint
    ensures !SavePublicationAsWritten(w, listing).sendsPrint
    ensures SavePublication(w, listing).watcher == SavePublicationAsWritten(w, listing).watcher
  {
  }

  // ---------------------------------------------------------------------
  // One URL of `excute` (PaperCrawler.py:169-186)

  /** What the browser shows after loading the URL: where it ended up, the
      hrefs of the page, and the href behind each XPath once clicked
      through. */
  datatype Page = Page(currentUrl: string, hrefs: seq<string>, hrefOf: string -> string)

  datatype Execution = Execution(domain: string, clicks: seq<string>, url: string, save: Save)

  function PdfLink(s: Strategy, page: Page): (r: Result<Trip>)
    ensures s.PdfHref? ==> (r.Success? <==> PdfHrefLink(page.hrefs).Success?)
    ensures s.PdfHref? && r.Success? ==> r.value == Trip([], PdfHrefLink(page.hrefs).value)
    ensures s.ClickThrough? ==> r == ClickThroughLink(s.xpaths, page.hrefOf)
  {
    match s
    case PdfHref =>
      (match PdfHrefLink(page.hrefs)
       case Success(link) => Success(Trip([], link))
       case Failure(e) => Failure(e))
    case ClickThrough(xpaths) => ClickThroughLink(xpaths, page.hrefOf)
  }

  /** Loading one URL: the domain is read off the browser's current URL,
      its strategy finds the PDF link, the link is made absolute, and the
      publication is saved with the snapshot advanced to `listing`. */
  function Execute(page: Page, w: Watcher, listing: seq<string>): (r: Result<Execution>)
    ensures DomainOf(page.currentUrl).Failure? ==> r == Failure("IndexError")
    ensures DomainOf(page.currentUrl).Success? && StrategyFor(DomainOf(page.currentUrl).value).Failure? ==>
              r == Failure("KeyError")
    ensures r.Success? ==>
              && r.value.domain == DomainOf(page.currentUrl).value
              && StrategyFor(r.value.domain).Success?
              && PatternFound(r.value.domain, r.value.url)
              && r.value.save == SavePublication(w, listing)
  {
    match DomainOf(page.currentUrl)
    case Failure(e) => Failure(e)
    case Success(domain) =>
      match StrategyFor(domain)
      case Failure(e) => Failure(e)
      case Success(s) =>
        match PdfLink(s, page)
        case Failure(e) => Failure(e)
        case Success(trip) =>
          Success(Execution(domain, trip.clicks, ComposeUrl(domain, trip.link), SavePublication(w, listing)))
  }

  /** On a page of a domain served by the PDF-href strategy the first
      PDF-looking link wins and nothing is clicked. */
  lemma PdfHrefPagesClickNothing(page: Page, w: Watcher, listing: seq<string>, domain: string, rest: string)
    requires domain != [] && forall k :: 0 <= k < |domain| ==> DomainChar(domain[k])
    requires StrategyFor(domain) == Success(PdfHref)
    requires page.currentUrl == HttpsPrefix + domain + rest
    requires rest == [] || !DomainChar(rest[0])
    requires PdfHrefLink(page.hrefs).Success?
    ensures Execute(page, w, listing) ==
              Success(Execution(domain, [], ComposeUrl(domain, PdfHrefLink(page.hrefs).value), SavePublication(w, listing)))
  {
    DomainOfComposed(domain, rest);
    var link := PdfHrefLink(page.hrefs).value;
    assert PdfLink(PdfHref, page) == Success(Trip([], link));
  }

  /** Pages of the primary domain are handled by the PDF-href strategy. */
  lemma PrimaryPagesUsePdfHref(page: Page, w: Watcher, listing: seq<string>, rest: string)
    requires page.currentUrl == HttpsPrefix + PrimaryDomain + rest
    requires rest == [] || !DomainChar(rest[0])
    requires PdfHrefLink(page.hrefs).Success?
    ensures Execute(page, w, listing).Success? && Execute(page, w, listing).value.clicks == []
  {
    PrimaryDomainListed();
    PdfHrefPagesClickNothing(page, w, listing, PrimaryDomain, rest);
  }
}
