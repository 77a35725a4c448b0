/** The older `nspider` class of experiment/nspider.py. Its tables, download
    step and resolver are those of the main class, with different
    contracts:
    - `_register_publication` (experiment/nspider.py:177-239) refuses a
      batch that repeats an indexed key instead of filtering it out,
      records only the primary-domain outcomes, and joins them onto the
      publications with a left merge on `doi`;
    - the download step renames the new file to the bare DOI;
    - the resolver reads the PMIDs of its ranked candidates through the
      selector `.rprt .tile a`;
    - `load_publication` classifies the identifier without un-escaping it.

    Its author test and similarity score are textually those of
    scraping.py and are modelled once, in module Matching. */
module Variant {
  import opened Wrappers
  import opened Tables
  import Identifiers
  import Text
  import Policy
  import Registry
  import Download
  import Crawler
  import Resolver

  // ---------------------------------------------------------------------
  // `load_publication` classification (experiment/nspider.py:497-502)

  /** The DOI test and then the PMID test, both on the identifier as
      given; anything else raises `AttributeError`. */
  function Classify(identifier: string): (r: Result<Identifiers.IdKind>)
    ensures r == Success(Identifiers.DoiId) <==> Identifiers.DoiFormat(identifier)
    ensures r == Success(Identifiers.PmidId) <==> !Identifiers.DoiFormat(identifier) && Identifiers.PmidFormat(identifier)
    ensures r.Failure? ==> r.error == "AttributeError"
  {
    if Identifiers.DoiFormat(identifier) then Success(Identifiers.DoiId)
    else if Identifiers.PmidFormat(identifier) then Success(Identifiers.PmidId)
    else Failure("AttributeError")
  }

  /** The DOIs are stored escaped, and an escaped DOI has no `/` left for
      the DOI pattern, nor is it all digits: the variant rejects every
      stored DOI that the main class accepts. */
  lemma RejectsStoredDoi(doi: string)
    requires Identifiers.DoiFormat(doi) && !Text.Contains(doi, Identifiers.SlashToken)
    ensures Classify(Identifiers.Escape(doi)) == Failure("AttributeError")
    ensures Identifiers.Classify(Identifiers.Escape(doi)) == Success(Identifiers.DoiId)
  {
    var e := Identifiers.Escape(doi);
    Identifiers.DoiFormatIff(doi);
    Identifiers.NoSlashNoDoi(e);
    Identifiers.PmidFormatIff(e);
    var k :| 0 <= k < |e| && e[k] == '_';
    assert !Text.IsDigit(e[k]);
    Identifiers.ClassifyEscapedDoi(doi);
  }

  /** Un-escaping only rewrites `_slash`, so on identifiers without `_` the
      two classifications agree. */
  lemma ClassifyAgreesWithoutUnderscore(identifier: string)
    requires '_' !in identifier
    ensures Classify(identifier) == Identifiers.Classify(identifier)
  {
    UnescapeNoUnderscore(identifier);
  }

  lemma {:induction false} UnescapeNoUnderscore(s: string)
    requires '_' !in s
    ensures Identifiers.Unescape(s) == s
    decreases |s|
  {
    if s != [] {
      assert s[0] != '_';
      assert !(Identifiers.SlashToken <= s);
      assert '_' !in s[1..] by {
        forall k | 0 <= k < |s[1..]| ensures s[1..][k] != '_' {
          assert s[1..][k] == s[k + 1];
        }
      }
      UnescapeNoUnderscore(s[1..]);
    }
  }

  // ---------------------------------------------------------------------
  // `_download_paper_and_rename` (experiment/nspider.py:242-264)

  /** Whether the entries `Path(dir).glob('*')` yields carry `dir` in front
      of the file name: a relative directory made only of `.` and empty
      components is `Path('.')`, whose entries are bare names; any other
      relative directory is repeated in each entry. */
  predicate GlobPrefixesRelativeDir(dir: string)
  {
    && (dir == [] || dir[0] != '/')
    && exists k :: 0 <= k < |Text.SplitOn(dir, "/")| && Text.SplitOn(dir, "/")[k] != "" && Text.SplitOn(dir, "/")[k] != "."
  }

  /** The same refresh, click-through and bounded poll as the main class,
      in the download directory `dir`. The found entry is joined onto
      `dir` once more before the rename (experiment/nspider.py:264): for an
      absolute directory, or one that is `.`, the join is the entry itself
      and the file is renamed to the DOI; for any other relative directory
      the joined path (`download/download/x.pdf`) names no file and the
      rename raises `FileNotFoundError`. */
  function DownloadPaper(dir: string, doi: string, page: Crawler.Page, w: Crawler.Watcher, listing: Download.Listing, limit: nat)
    : (r: Result<Download.Outcome>)
    ensures var m := Download.DownloadPaper(doi, page, w, listing, limit);
            r.Success? <==> m.Success? && !(m.value.status && GlobPrefixesRelativeDir(dir))
    ensures var m := Download.DownloadPaper(doi, page, w, listing, limit);
            r.Failure? && m.Success? ==> r.error == "FileNotFoundError"
    ensures r.Success? ==> r.value.renamedTo == (if r.value.status then Some(doi) else None)
  {
    match Download.DownloadPaper(doi, page, w, listing, limit)
    case Failure(e) => Failure(e)
    case Success(o) =>
      if o.status && GlobPrefixesRelativeDir(dir) then Failure("FileNotFoundError")
      else Success(o.(renamedTo := if o.status then Some(doi) else None))
  }

  /** A relative directory of one real component, such as `download`, is
      repeated in front of every entry. */
  lemma OneComponentIsPrefixed(dir: string)
    requires '/' !in dir && dir != "" && dir != "."
    ensures GlobPrefixesRelativeDir(dir)
  {
    assert dir[0] in dir;
    Text.CountCharAbsent(dir, '/');
    Text.SplitOnCharCount(dir, '/');
    Text.JoinSplitOn(dir, "/");
    assert Text.SplitOn(dir, "/")[0] == dir;
  }

  /** The crawler's own default directory `./` gives bare entries, as does
      any absolute directory, while `download` is repeated by the join. */
  lemma RelativeDirectoryExamples()
    ensures GlobPrefixesRelativeDir("download")
    ensures !GlobPrefixesRelativeDir("./")
    ensures !GlobPrefixesRelativeDir("/tmp/download")
  {
    OneComponentIsPrefixed("download");
    CurrentDirectoryIsBare();
  }

  lemma CurrentDirectoryIsBare()
    ensures Text.SplitOn("./", "/") == [".", ""]
  {
    assert Text.SplitOn("", "/") == [""];
    assert "/"[..1] == "/" && "/"[1..] == "";
    assert Text.SplitOn("/", "/") == ["", ""];
    assert "./"[..1] != "/" && "./"[1..] == "/";
    var rest := Text.SplitOn("./"[1..], "/");
    assert rest == ["", ""];
    assert rest[1..] == [""];
    assert ["./"[0]] + rest[0] == ".";
  }

  /** Where the variant renames at all, it polls exactly as the main class
      does and differs only in the name it renames to, which lacks the
      `.pdf` that `load_publication` (experiment/nspider.py:510) appends to
      the DOI when it opens the paper: the file it opens is never the one
      the download produced. */
  lemma RenameMissesLoadPath(dir: string, doi: string, page: Crawler.Page, w: Crawler.Watcher, listing: Download.Listing, limit: nat)
    requires DownloadPaper(dir, doi, page, w, listing, limit).Success?
    requires DownloadPaper(dir, doi, page, w, listing, limit).value.status
    ensures Download.DownloadPaper(doi, page, w, listing, limit).value ==
              DownloadPaper(dir, doi, page, w, listing, limit).value.(renamedTo := Some(Identifiers.CanonicalFileName(doi)))
    ensures DownloadPaper(dir, doi, page, w, listing, limit).value.renamedTo.value != Identifiers.CanonicalFileName(doi)
  {
  }

  // ---------------------------------------------------------------------
  // Resolver selection (experiment/nspider.py:362-430). The author test
  // at line 388 is called without `self.`, a name the module does not
  // define; it is read as the method of line 272, which is textually
  // `Matching.IsTheirPublication`.

  /** `[titles[idx].attrib['href'].split('/')[-1] for idx in matched_idx]`:
      each ranked position is looked up among the title anchors the
      selector found, and a position past their end raises `IndexError`. */
  function RankedPmids(anchors: seq<string>, ranked: seq<nat>): (r: Result<seq<string>>)
    ensures r.Success? <==> forall k :: 0 <= k < |ranked| ==> ranked[k] < |anchors|
    ensures r.Success? ==> |r.value| == |ranked|
                           && forall k :: 0 <= k < |ranked| ==> r.value[k] == Identifiers.LastSegment(anchors[ranked[k]])
    ensures r.Failure? ==> r.error == "IndexError"
  {
    if ranked == [] then Success([])
    else if ranked[0] >= |anchors| then Failure("IndexError")
    else match RankedPmids(anchors, ranked[1..])
      case Failure(e) => Failure(e)
      case Success(rest) => Success([Identifiers.LastSegment(anchors[ranked[0]])] + rest)
  }

  /** The selection given the anchors the title selector found: the
      candidates are ranked as in the main class, each takes its PMID from
      the anchor at its position on the result page, and the full-text and
      similarity tests pick one of them. */
  function SelectWithAnchors(page: Resolver.DatasetPage, cands: seq<Resolver.Candidate>, anchors: seq<string>)
    : (r: Result<Resolver.Resolution>)
    ensures page.contributors == [] ==> r == Failure("IndexError")
  {
    if page.contributors == [] then Failure("IndexError")
    else
      var idx := Resolver.RankCandidates(page.contributors, cands);
      match RankedPmids(anchors, idx)
      case Failure(e) => Failure(e)
      case Success(_) =>
        Resolver.RankInRange(page.contributors, cands);
        Resolver.Select(Retitled(cands, idx, anchors), page.accession, page.title)
  }

  /** The ranked candidates, each with the title link the selector found
      at its position on the result page. */
  function Retitled(cands: seq<Resolver.Candidate>, idx: seq<nat>, anchors: seq<string>): (r: seq<Resolver.Candidate>)
    requires forall k :: 0 <= k < |idx| ==> idx[k] < |cands| && idx[k] < |anchors|
    ensures |r| == |idx|
    ensures forall k :: 0 <= k < |idx| ==> r[k] == cands[idx[k]].(titleHref := anchors[idx[k]])
  {
    seq(|idx|, k requires 0 <= k < |idx| => cands[idx[k]].(titleHref := anchors[idx[k]]))
  }

  /** The anchors of `.rprt .tile a` (experiment/nspider.py:408): no result
      page has a `tile` class, so the selector finds nothing. */
  const TileAnchors: seq<string> := []

  /** The anchors of `.rprt .title a`, the selector of scraping.py:192:
      the title link of every search result, in page order. */
  function TitleAnchors(cands: seq<Resolver.Candidate>): (r: seq<string>)
    ensures |r| == |cands| && forall k :: 0 <= k < |cands| ==> r[k] == cands[k].titleHref
  {
    seq(|cands|, k requires 0 <= k < |cands| => cands[k].titleHref)
  }

  /** As written the selection never succeeds: a candidate that passes the
      author test is looked up among no anchors, and with none passing the
      `max` over an empty range raises. */
  lemma TileSelectorAlwaysFails(page: Resolver.DatasetPage, cands: seq<Resolver.Candidate>)
    ensures SelectWithAnchors(page, cands, TileAnchors).Failure?
  {
    if page.contributors != [] {
      var idx := Resolver.RankCandidates(page.contributors, cands);
      if idx != [] {
        assert RankedPmids(TileAnchors, idx).Failure?;
      }
    }
  }

  /** With the `.title` selector the variant selects exactly what the main
      resolver selects. */
  lemma TitleSelectorResolves(page: Resolver.DatasetPage, cands: seq<Resolver.Candidate>)
    ensures SelectWithAnchors(page, cands, TitleAnchors(cands)) == Resolver.Resolve(page, cands)
  {
    if page.contributors != [] {
      var idx := Resolver.RankCandidates(page.contributors, cands);
      RankedWithTitles(page.contributors, cands);
      ResolveUnfolds(page, cands);
    }
  }

  /** Each ranked candidate with its title link replaced by the anchor at
      its own position is the candidate itself. */
  lemma RankedWithTitles(contributors: seq<string>, cands: seq<Resolver.Candidate>)
    ensures var idx := Resolver.RankCandidates(contributors, cands);
            var anchors := TitleAnchors(cands);
            && (forall k :: 0 <= k < |idx| ==> idx[k] < |cands| && idx[k] < |anchors|)
            && Retitled(cands, idx, anchors) == Resolver.RankedCandidates(contributors, cands)
  {
    Resolver.RankInRange(contributors, cands);
  }

  lemma ResolveUnfolds(page: Resolver.DatasetPage, cands: seq<Resolver.Candidate>)
    requires page.contributors != []
    ensures Resolver.Resolve(page, cands) ==
              Resolver.Select(Resolver.RankedCandidates(page.contributors, cands), page.accession, page.title)
  {
  }

  // ---------------------------------------------------------------------
  // `_register_publication` (experiment/nspider.py:177-239)

  /** One row of the `successful_donwload` frame the primary loop builds. */
  datatype PrimaryOutcome = PrimaryOutcome(doi: string, ok: bool)

  /** The primary loop (experiment/nspider.py:200-206): every primary link
      is tried once, in order, and its outcome gets a row of its own. */
  function PrimaryOutcomes(prim: seq<SourceRow>, attempt: Policy.Attempt): (r: seq<PrimaryOutcome>)
    ensures |r| == |prim|
    ensures forall k :: 0 <= k < |prim| ==> r[k] == PrimaryOutcome(prim[k].doi, Policy.Succeeds(attempt, prim[k]))
  {
    seq(|prim|, k requires 0 <= k < |prim| => PrimaryOutcome(prim[k].doi, Policy.Succeeds(attempt, prim[k])))
  }

  /** The outcome frame of a batch. */
  function BatchOutcomes(pubs: seq<PublicationRow>, srcs: seq<SourceRow>, attempt: Policy.Attempt): seq<PrimaryOutcome>
  {
    PrimaryOutcomes(Policy.PrimaryLinks(pubs, srcs), attempt)
  }

  /** `successful_donwload.doi.values`. */
  function OutcomeDois(outs: seq<PrimaryOutcome>): (r: set<string>)
    ensures forall d :: d in r <==> exists k :: 0 <= k < |outs| && outs[k].doi == d
  {
    set k | 0 <= k < |outs| :: outs[k].doi
  }

  /** Every attempt a group loop makes is for the group's DOI. */
  lemma GroupTriesDoi(sec: seq<SourceRow>, d: string, attempt: Policy.Attempt)
    ensures forall t :: t in Policy.TryUntilSuccess(Policy.Group(sec, d), attempt).1 ==> t.doi == d
  {
    var g := Policy.Group(sec, d);
    var ts := Policy.TryUntilSuccess(g, attempt).1;
    forall t | t in ts ensures t.doi == d {
      var k :| 0 <= k < |ts| && ts[k] == t;
      assert ts[k] == Policy.TryOf(g[..|ts|][k]);
      assert g[k] in g;
    }
  }

  /** The group loop (experiment/nspider.py:212-233). A DOI that appears
      among the primary outcomes is skipped, whatever the outcome was; the
      links of any other DOI are tried in order up to the first success.
      The status the loop computes goes to `DataFrame.append`, whose result
      is discarded, so only the attempts remain: exactly those the group
      loops of the DOIs not skipped make. */
  function SecondaryTries(dois: seq<string>, sec: seq<SourceRow>, skip: set<string>, attempt: Policy.Attempt)
    : (r: seq<Policy.Try>)
    ensures forall t :: t in r ==>
              && t.doi in dois && t.doi !in skip
              && t in Policy.TryUntilSuccess(Policy.Group(sec, t.doi), attempt).1
    ensures forall d, t :: d in dois && d !in skip && t in Policy.TryUntilSuccess(Policy.Group(sec, d), attempt).1 ==> t in r
    decreases |dois|
  {
    if dois == [] then []
    else
      var here := if dois[0] in skip then [] else Policy.TryUntilSuccess(Policy.Group(sec, dois[0]), attempt).1;
      var rest := SecondaryTries(dois[1..], sec, skip, attempt);
      GroupTriesDoi(sec, dois[0], attempt);
      assert forall d :: d in dois ==> d == dois[0] || d in dois[1..];
      here + rest
  }

  /** The primary outcomes of one DOI, in frame order. */
  function OutcomesFor(outs: seq<PrimaryOutcome>, doi: string): (r: seq<PrimaryOutcome>)
    ensures forall o :: o in r <==> o in outs && o.doi == doi
    ensures r == [] <==> doi !in OutcomeDois(outs)
    decreases |outs|
  {
    if outs == [] then []
    else
      var r := (if outs[0].doi == doi then [outs[0]] else []) + OutcomesFor(outs[1..], doi);
      assert forall k :: 1 <= k < |outs| ==> outs[k] == outs[1..][k - 1] && outs[k] in outs[1..];
      r
  }

  /** The rows the left merge makes of one publication row: one per
      primary outcome of its DOI, in frame order, carrying that outcome;
      a single row with a missing status when the DOI has none. */
  function MergeRow(p: PublicationRow, outs: seq<PrimaryOutcome>): (r: seq<PublicationRow>)
    ensures |r| == if p.doi in OutcomeDois(outs) then |OutcomesFor(outs, p.doi)| else 1
  {
    var m := OutcomesFor(outs, p.doi);
    if m == [] then [p.(download := NotAttempted)] else Stamp(p, m)
  }

  /** Every merged row is the publication row with a status: missing
      exactly when the DOI has no primary outcome, and otherwise one of
      the DOI's outcomes. */
  lemma MergeRowRows(p: PublicationRow, outs: seq<PrimaryOutcome>)
    ensures forall x :: x in MergeRow(p, outs) ==> x.(download := p.download) == p && x.doi == p.doi
    ensures forall x :: x in MergeRow(p, outs) ==> (x.download == NotAttempted <==> p.doi !in OutcomeDois(outs))
    ensures forall x :: x in MergeRow(p, outs) && x.download != NotAttempted ==>
              PrimaryOutcome(p.doi, x.download == Succeeded) in outs
  {
    if OutcomesFor(outs, p.doi) != [] {
      StampedRows(p, outs);
    }
  }

  /** One copy of `p` per outcome, carrying that outcome. */
  function Stamp(p: PublicationRow, m: seq<PrimaryOutcome>): (r: seq<PublicationRow>)
    ensures |r| == |m|
    ensures forall k :: 0 <= k < |m| ==> r[k] == p.(download := Policy.StatusOf(m[k].ok))
  {
    seq(|m|, k requires 0 <= k < |m| => p.(download := Policy.StatusOf(m[k].ok)))
  }

  lemma StampedRows(p: PublicationRow, outs: seq<PrimaryOutcome>)
    ensures forall x :: x in Stamp(p, OutcomesFor(outs, p.doi)) ==>
              && x.(download := p.download) == p && x.download != NotAttempted
              && PrimaryOutcome(p.doi, x.download == Succeeded) in outs
  {
    var m := OutcomesFor(outs, p.doi);
    var r := Stamp(p, m);
    forall x | x in r
      ensures x.(download := p.download) == p && x.download != NotAttempted
      ensures PrimaryOutcome(p.doi, x.download == Succeeded) in outs
    {
      var k :| 0 <= k < |r| && r[k] == x;
      assert m[k] in m;
    }
  }

  /** `publication.merge(successful_donwload, how='left', on='doi')`: the
      merged rows of each publication in turn, in publication order. */
  function MergeLeft(pubs: seq<PublicationRow>, outs: seq<PrimaryOutcome>): (r: seq<PublicationRow>)
    ensures |r| >= |pubs|
    decreases |pubs|
  {
    if pubs == [] then [] else MergeRow(pubs[0], outs) + MergeLeft(pubs[1..], outs)
  }

  /** Every merged row comes from one publication row. */
  lemma {:induction false} MergeLeftFrom(pubs: seq<PublicationRow>, outs: seq<PrimaryOutcome>, x: PublicationRow)
    requires x in MergeLeft(pubs, outs)
    ensures exists i :: 0 <= i < |pubs| && x in MergeRow(pubs[i], outs)
    decreases |pubs|
  {
    var tail := MergeLeft(pubs[1..], outs);
    assert MergeLeft(pubs, outs) == MergeRow(pubs[0], outs) + tail;
    if x !in MergeRow(pubs[0], outs) {
      assert x in tail;
      MergeLeftFrom(pubs[1..], outs, x);
      var i :| 0 <= i < |pubs[1..]| && x in MergeRow(pubs[1..][i], outs);
      assert pubs[1..][i] == pubs[i + 1];
    }
  }

  /** Every row of every publication's merge is in the result. */
  lemma {:induction false} MergeLeftHas(pubs: seq<PublicationRow>, outs: seq<PrimaryOutcome>, i: nat, x: PublicationRow)
    requires i < |pubs| && x in MergeRow(pubs[i], outs)
    ensures x in MergeLeft(pubs, outs)
    decreases i
  {
    if i == 0 {
      MergeLeftSplit(pubs, outs, x);
    } else {
      assert pubs[1..][i - 1] == pubs[i];
      MergeLeftHas(pubs[1..], outs, i - 1, x);
      MergeLeftSplit(pubs, outs, x);
    }
  }

  /** A row of the first publication's merge, or of the rest of the merge,
      is in the merge. */
  lemma MergeLeftSplit(pubs: seq<PublicationRow>, outs: seq<PrimaryOutcome>, x: PublicationRow)
    requires pubs != []
    requires x in MergeRow(pubs[0], outs) || x in MergeLeft(pubs[1..], outs)
    ensures x in MergeLeft(pubs, outs)
  {
    var head := MergeRow(pubs[0], outs);
    var tail := MergeLeft(pubs[1..], outs);
    assert MergeLeft(pubs, outs) == head + tail;
    InConcat(head, tail, x);
  }

  lemma InConcat<T>(a: seq<T>, b: seq<T>, x: T)
    requires x in a || x in b
    ensures x in a + b
  {
  }

  /** The merge neither loses nor invents a DOI. */
  lemma MergeLeftKeys(pubs: seq<PublicationRow>, outs: seq<PrimaryOutcome>)
    ensures Registry.PublicationKeys(MergeLeft(pubs, outs)) == Registry.PublicationKeys(pubs)
  {
    MergedKeysFromPubs(pubs, outs);
    PubKeysMerged(pubs, outs);
  }

  lemma MergedKeysFromPubs(pubs: seq<PublicationRow>, outs: seq<PrimaryOutcome>)
    ensures Registry.PublicationKeys(MergeLeft(pubs, outs)) <= Registry.PublicationKeys(pubs)
  {
    var m := MergeLeft(pubs, outs);
    forall d | d in Registry.PublicationKeys(m) ensures d in Registry.PublicationKeys(pubs) {
      var k :| 0 <= k < |m| && m[k].doi == d;
      assert m[k] in m;
      MergeLeftFrom(pubs, outs, m[k]);
      var i :| 0 <= i < |pubs| && m[k] in MergeRow(pubs[i], outs);
    }
  }

  lemma PubKeysMerged(pubs: seq<PublicationRow>, outs: seq<PrimaryOutcome>)
    ensures Registry.PublicationKeys(pubs) <= Registry.PublicationKeys(MergeLeft(pubs, outs))
  {
    var m := MergeLeft(pubs, outs);
    forall d | d in Registry.PublicationKeys(pubs) ensures d in Registry.PublicationKeys(m) {
      var i :| 0 <= i < |pubs| && pubs[i].doi == d;
      var row := MergeRow(pubs[i], outs);
      assert row[0] in row;
      MergeLeftHas(pubs, outs, i, row[0]);
      var k :| 0 <= k < |m| && m[k] == row[0];
    }
  }

  /** The merge keeps one row per publication exactly when no DOI has more
      than one primary outcome; otherwise a publication's row is repeated,
      once per outcome. */
  lemma {:induction false} MergeLengthIff(pubs: seq<PublicationRow>, outs: seq<PrimaryOutcome>)
    ensures |MergeLeft(pubs, outs)| == |pubs| <==> forall i :: 0 <= i < |pubs| ==> |OutcomesFor(outs, pubs[i].doi)| <= 1
    decreases |pubs|
  {
    if pubs != [] {
      var rest := pubs[1..];
      MergeLengthIff(rest, outs);
      MergeLeftLengthStep(pubs, outs);
      ForallSplit(pubs, d => |OutcomesFor(outs, d)| <= 1);
    }
  }

  /** A property of every DOI of a batch holds of its first DOI and of every
      DOI of the rest. */
  lemma ForallSplit(pubs: seq<PublicationRow>, P: string -> bool)
    requires pubs != []
    ensures (forall i :: 0 <= i < |pubs| ==> P(pubs[i].doi)) <==>
            P(pubs[0].doi) && forall i :: 0 <= i < |pubs[1..]| ==> P(pubs[1..][i].doi)
  {
    assert forall i :: 1 <= i < |pubs| ==> pubs[i] == pubs[1..][i - 1];
  }

  lemma MergeLeftLengthStep(pubs: seq<PublicationRow>, outs: seq<PrimaryOutcome>)
    requires pubs != []
    ensures |MergeLeft(pubs, outs)| >= |MergeLeft(pubs[1..], outs)| + 1
    ensures |MergeLeft(pubs, outs)| == |MergeLeft(pubs[1..], outs)| + 1 <==> |OutcomesFor(outs, pubs[0].doi)| <= 1
  {
    assert MergeLeft(pubs, outs) == MergeRow(pubs[0], outs) + MergeLeft(pubs[1..], outs);
  }

  /** The parts of a table without duplicate DOIs have none. */
  lemma UniqueParts(a: seq<PublicationRow>, b: seq<PublicationRow>)
    requires Registry.PublicationsUnique(a + b)
    ensures Registry.PublicationsUnique(a) && Registry.PublicationsUnique(b)
  {
    forall j, k | 0 <= j < k < |a| ensures a[j].doi != a[k].doi {
      assert a[j] == (a + b)[j] && a[k] == (a + b)[k];
    }
    forall j, k | 0 <= j < k < |b| ensures b[j].doi != b[k].doi {
      assert b[j] == (a + b)[|a| + j] && b[k] == (a + b)[|a| + k];
    }
  }

  /** Two tables without duplicate DOIs and without a DOI in common join
      into one without duplicates. */
  lemma UniqueJoin(a: seq<PublicationRow>, b: seq<PublicationRow>)
    requires Registry.PublicationsUnique(a) && Registry.PublicationsUnique(b)
    requires Registry.PublicationKeys(a) !! Registry.PublicationKeys(b)
    ensures Registry.PublicationsUnique(a + b)
  {
    forall j, k | 0 <= j < k < |a + b| ensures (a + b)[j].doi != (a + b)[k].doi {
      if k >= |a| {
        assert (a + b)[k] == b[k - |a|];
        if j >= |a| {
          assert (a + b)[j] == b[j - |a|];
        } else {
          assert (a + b)[j] == a[j];
          assert a[j].doi in Registry.PublicationKeys(a);
          assert b[k - |a|].doi in Registry.PublicationKeys(b);
        }
      }
    }
  }

  /** On a batch of distinct DOIs, the merged rows have distinct DOIs
      exactly when no DOI has more than one primary outcome. */
  lemma MergeUniqueIff(pubs: seq<PublicationRow>, outs: seq<PrimaryOutcome>)
    requires Registry.PublicationsUnique(pubs)
    ensures Registry.PublicationsUnique(MergeLeft(pubs, outs)) <==>
              forall i :: 0 <= i < |pubs| ==> |OutcomesFor(outs, pubs[i].doi)| <= 1
  {
    if forall i :: 0 <= i < |pubs| ==> |OutcomesFor(outs, pubs[i].doi)| <= 1 {
      MergeUniqueIf(pubs, outs);
    }
    if Registry.PublicationsUnique(MergeLeft(pubs, outs)) {
      MergeUniqueOnlyIf(pubs, outs);
    }
  }

  /** The first row of a batch and the rest, on a batch of distinct DOIs. */
  lemma SplitFirst(pubs: seq<PublicationRow>, outs: seq<PrimaryOutcome>)
    requires pubs != [] && Registry.PublicationsUnique(pubs)
    ensures MergeLeft(pubs, outs) == MergeRow(pubs[0], outs) + MergeLeft(pubs[1..], outs)
    ensures Registry.PublicationsUnique(pubs[1..])
    ensures Registry.PublicationKeys(MergeRow(pubs[0], outs)) == {pubs[0].doi}
    ensures Registry.PublicationKeys(MergeLeft(pubs[1..], outs)) == Registry.PublicationKeys(pubs[1..])
    ensures pubs[0].doi !in Registry.PublicationKeys(pubs[1..])
  {
    UniqueParts([pubs[0]], pubs[1..]);
    assert [pubs[0]] + pubs[1..] == pubs;
    MergeLeftKeys(pubs[1..], outs);
    var row := MergeRow(pubs[0], outs);
    assert row[0] in row;
    forall d | d in Registry.PublicationKeys(pubs[1..]) ensures d != pubs[0].doi {
      var k :| 0 <= k < |pubs[1..]| && pubs[1..][k].doi == d;
      assert pubs[1..][k] == pubs[k + 1];
    }
  }

  lemma {:induction false} MergeUniqueIf(pubs: seq<PublicationRow>, outs: seq<PrimaryOutcome>)
    requires Registry.PublicationsUnique(pubs)
    requires forall i :: 0 <= i < |pubs| ==> |OutcomesFor(outs, pubs[i].doi)| <= 1
    ensures Registry.PublicationsUnique(MergeLeft(pubs, outs))
    decreases |pubs|
  {
    if pubs != [] {
      SplitFirst(pubs, outs);
      assert forall i :: 0 <= i < |pubs[1..]| ==> pubs[1..][i] == pubs[i + 1];
      MergeUniqueIf(pubs[1..], outs);
      assert |OutcomesFor(outs, pubs[0].doi)| <= 1;
      UniqueJoin(MergeRow(pubs[0], outs), MergeLeft(pubs[1..], outs));
    }
  }

  lemma {:induction false} MergeUniqueOnlyIf(pubs: seq<PublicationRow>, outs: seq<PrimaryOutcome>)
    requires Registry.PublicationsUnique(pubs)
    requires Registry.PublicationsUnique(MergeLeft(pubs, outs))
    ensures forall i :: 0 <= i < |pubs| ==> |OutcomesFor(outs, pubs[i].doi)| <= 1
    decreases |pubs|
  {
    if pubs != [] {
      var row := MergeRow(pubs[0], outs);
      SplitFirst(pubs, outs);
      UniqueParts(row, MergeLeft(pubs[1..], outs));
      MergeUniqueOnlyIf(pubs[1..], outs);
      UniqueRowBound(pubs[0], outs);
      forall i | 1 <= i < |pubs| ensures |OutcomesFor(outs, pubs[i].doi)| <= 1 {
        assert pubs[i] == pubs[1..][i - 1];
      }
    }
  }

  /** The merged rows of one publication share its DOI, so they are
      distinct only when there is at most one of them. */
  lemma UniqueRowBound(p: PublicationRow, outs: seq<PrimaryOutcome>)
    requires Registry.PublicationsUnique(MergeRow(p, outs))
    ensures |OutcomesFor(outs, p.doi)| <= 1
  {
    TwoRowsClash(p, outs);
  }

  lemma TwoRowsClash(p: PublicationRow, outs: seq<PrimaryOutcome>)
    ensures |MergeRow(p, outs)| >= 2 ==> !Registry.PublicationsUnique(MergeRow(p, outs))
  {
    var row := MergeRow(p, outs);
    if |row| >= 2 {
      assert row[0] in row && row[1] in row;
    }
  }

  /** `gds_uid & self.gds_index` or `publication_doi & self.publication_index`
      is not empty. */
  predicate Clashes(reg: Registry.Registry, gds: seq<GdsRow>, pubs: seq<PublicationRow>)
  {
    Registry.GdsKeys(gds) * reg.gdsIndex != {} || Registry.PublicationKeys(pubs) * reg.publicationIndex != {}
  }

  lemma ClashesIff(reg: Registry.Registry, gds: seq<GdsRow>, pubs: seq<PublicationRow>)
    ensures Clashes(reg, gds, pubs) <==> (exists k :: 0 <= k < |gds| && gds[k].gdsUid in reg.gdsIndex)
                                         || (exists k :: 0 <= k < |pubs| && pubs[k].doi in reg.publicationIndex)
  {
    if exists k :: 0 <= k < |gds| && gds[k].gdsUid in reg.gdsIndex {
      var k :| 0 <= k < |gds| && gds[k].gdsUid in reg.gdsIndex;
      assert gds[k].gdsUid in Registry.GdsKeys(gds) * reg.gdsIndex;
    }
    if exists k :: 0 <= k < |pubs| && pubs[k].doi in reg.publicationIndex {
      var k :| 0 <= k < |pubs| && pubs[k].doi in reg.publicationIndex;
      assert pubs[k].doi in Registry.PublicationKeys(pubs) * reg.publicationIndex;
    }
    if Registry.GdsKeys(gds) * reg.gdsIndex != {} {
      var u :| u in Registry.GdsKeys(gds) * reg.gdsIndex;
      var k :| 0 <= k < |gds| && gds[k].gdsUid == u;
    }
    if Registry.PublicationKeys(pubs) * reg.publicationIndex != {} {
      var d :| d in Registry.PublicationKeys(pubs) * reg.publicationIndex;
      var k :| 0 <= k < |pubs| && pubs[k].doi == d;
    }
  }

  /** The variant `_register_publication`, in `csv` mode. It asserts that
      no gds uid and no DOI of the batch is already indexed, and raises
      `AssertionError` otherwise. It then adds every key to the indexes,
      tries the free links (the primary ones first, then the group loop),
      and appends the whole batch: the gds and source rows as given, and
      the publications merged with the primary outcomes. */
  function RegisterStrict(reg: Registry.Registry, gds: seq<GdsRow>, pubs: seq<PublicationRow>, srcs: seq<SourceRow>,
                          attempt: Policy.Attempt): (r: Result<Registry.Registered>)
    ensures r.Failure? <==> (exists k :: 0 <= k < |gds| && gds[k].gdsUid in reg.gdsIndex)
                            || (exists k :: 0 <= k < |pubs| && pubs[k].doi in reg.publicationIndex)
    ensures r.Failure? ==> r.error == "AssertionError"
    ensures r.Success? ==>
              && r.value.registry.gds == reg.gds + gds
              && r.value.registry.gdsIndex == reg.gdsIndex + Registry.GdsKeys(gds)
              && r.value.registry.publications == reg.publications + MergeLeft(pubs, BatchOutcomes(pubs, srcs, attempt))
              && r.value.registry.publicationIndex == reg.publicationIndex + Registry.PublicationKeys(pubs)
              && r.value.registry.sources == reg.sources + srcs
    ensures r.Success? ==>
              && |Policy.PrimaryLinks(pubs, srcs)| <= |r.value.attempts|
              && r.value.attempts[..|Policy.PrimaryLinks(pubs, srcs)|] == Policy.Tries(Policy.PrimaryLinks(pubs, srcs))
              && r.value.attempts[|Policy.PrimaryLinks(pubs, srcs)|..] ==
                   SecondaryTries(Policy.DistinctDois(Policy.SecondaryLinks(pubs, srcs)), Policy.SecondaryLinks(pubs, srcs),
                                  OutcomeDois(BatchOutcomes(pubs, srcs, attempt)), attempt)
  {
    ClashesIff(reg, gds, pubs);
    if Clashes(reg, gds, pubs) then Failure("AssertionError")
    else
      var prim := Policy.PrimaryLinks(pubs, srcs);
      var sec := Policy.SecondaryLinks(pubs, srcs);
      var outs := PrimaryOutcomes(prim, attempt);
      var later := SecondaryTries(Policy.DistinctDois(sec), sec, OutcomeDois(outs), attempt);
      var tries := Policy.Tries(prim) + later;
      assert tries[..|prim|] == Policy.Tries(prim) && tries[|prim|..] == later;
      Success(Registry.Registered(
        reg.(gds := reg.gds + gds, gdsIndex := reg.gdsIndex + Registry.GdsKeys(gds),
             publications := reg.publications + MergeLeft(pubs, outs),
             publicationIndex := reg.publicationIndex + Registry.PublicationKeys(pubs),
             sources := reg.sources + srcs),
        tries))
  }

  /** A DOI with a primary outcome is never tried on a secondary link,
      even when every primary attempt for it failed: the attempts made for
      it are exactly its primary links. */
  lemma FailedPrimaryNotRetried(reg: Registry.Registry, gds: seq<GdsRow>, pubs: seq<PublicationRow>,
                                srcs: seq<SourceRow>, attempt: Policy.Attempt, d: string)
    requires RegisterStrict(reg, gds, pubs, srcs, attempt).Success?
    requires d in OutcomeDois(BatchOutcomes(pubs, srcs, attempt))
    ensures forall t :: t in RegisterStrict(reg, gds, pubs, srcs, attempt).value.attempts && t.doi == d ==>
              t in Policy.Tries(Policy.PrimaryLinks(pubs, srcs))
  {
    var prim := Policy.PrimaryLinks(pubs, srcs);
    var ts := RegisterStrict(reg, gds, pubs, srcs, attempt).value.attempts;
    forall t | t in ts && t.doi == d ensures t in Policy.Tries(prim) {
      var k :| 0 <= k < |ts| && ts[k] == t;
      if k < |prim| {
        assert ts[..|prim|][k] == t;
      }
    }
  }

  /** Secondary outcomes never reach the tables: two runs whose attempts
      agree on the primary links store the same registry. */
  lemma SecondaryOutcomesDiscarded(reg: Registry.Registry, gds: seq<GdsRow>, pubs: seq<PublicationRow>,
                                   srcs: seq<SourceRow>, a1: Policy.Attempt, a2: Policy.Attempt)
    requires forall s :: s in Policy.PrimaryLinks(pubs, srcs) ==> a1(s.doi, s.linkToPaper) == a2(s.doi, s.linkToPaper)
    ensures RegisterStrict(reg, gds, pubs, srcs, a1).Success? == RegisterStrict(reg, gds, pubs, srcs, a2).Success?
    ensures RegisterStrict(reg, gds, pubs, srcs, a1).Success? ==>
              RegisterStrict(reg, gds, pubs, srcs, a1).value.registry == RegisterStrict(reg, gds, pubs, srcs, a2).value.registry
  {
    var prim := Policy.PrimaryLinks(pubs, srcs);
    assert forall k :: 0 <= k < |prim| ==> prim[k] in prim;
    assert BatchOutcomes(pubs, srcs, a1) == BatchOutcomes(pubs, srcs, a2);
  }

  /** Where the strict registration succeeds, the first-write-wins merge
      of the main class would have kept the whole batch too: it appends
      the same gds rows and builds the same index, and drops no
      publication. */
  lemma StrictAgreesWithDedup(reg: Registry.Registry, gds: seq<GdsRow>, pubs: seq<PublicationRow>,
                              srcs: seq<SourceRow>, attempt: Policy.Attempt)
    requires RegisterStrict(reg, gds, pubs, srcs, attempt).Success?
    ensures RegisterStrict(reg, gds, pubs, srcs, attempt).value.registry.gds == Registry.RegisterDataset(reg, gds).gds
    ensures RegisterStrict(reg, gds, pubs, srcs, attempt).value.registry.gdsIndex == Registry.RegisterDataset(reg, gds).gdsIndex
    ensures Registry.FilterPublications(pubs, reg.publicationIndex) == pubs
  {
    FilterGdsKeepsAll(gds, reg.gdsIndex);
    FilterPublicationsKeepsAll(pubs, reg.publicationIndex);
  }

  lemma FilterGdsKeepsAll(rows: seq<GdsRow>, out: set<string>)
    requires forall k :: 0 <= k < |rows| ==> rows[k].gdsUid !in out
    ensures Registry.FilterGds(rows, out) == rows
  {
    Policy.KeepAll(rows, (x: GdsRow) => x.gdsUid !in out);
  }

  lemma FilterPublicationsKeepsAll(rows: seq<PublicationRow>, out: set<string>)
    requires forall k :: 0 <= k < |rows| ==> rows[k].doi !in out
    ensures Registry.FilterPublications(rows, out) == rows
  {
    Policy.KeepAll(rows, (x: PublicationRow) => x.doi !in out);
  }

  /** Unlike the merge of the main class, the strict registration cannot be
      repeated: a second run of a non-empty batch finds its keys indexed. */
  lemma StrictRejectsReplay(reg: Registry.Registry, gds: seq<GdsRow>, pubs: seq<PublicationRow>,
                            srcs: seq<SourceRow>, a1: Policy.Attempt, a2: Policy.Attempt)
    requires RegisterStrict(reg, gds, pubs, srcs, a1).Success?
    requires gds != [] || pubs != []
    ensures RegisterStrict(RegisterStrict(reg, gds, pubs, srcs, a1).value.registry, gds, pubs, srcs, a2)
              == Failure("AssertionError")
  {
    var r1 := RegisterStrict(reg, gds, pubs, srcs, a1).value.registry;
    if gds != [] {
      assert gds[0].gdsUid in r1.gdsIndex;
    } else {
      assert pubs[0].doi in r1.publicationIndex;
    }
  }

  /** The strict registration keeps each index equal to its table's keys. */
  lemma StrictConsistent(reg: Registry.Registry, gds: seq<GdsRow>, pubs: seq<PublicationRow>,
                         srcs: seq<SourceRow>, attempt: Policy.Attempt)
    requires Registry.Consistent(reg)
    requires RegisterStrict(reg, gds, pubs, srcs, attempt).Success?
    ensures Registry.Consistent(RegisterStrict(reg, gds, pubs, srcs, attempt).value.registry)
  {
    var merged := MergeLeft(pubs, BatchOutcomes(pubs, srcs, attempt));
    Registry.GdsKeysAppend(reg.gds, gds);
    Registry.PublicationKeysAppend(reg.publications, merged);
    MergeLeftKeys(pubs, BatchOutcomes(pubs, srcs, attempt));
  }

  lemma GdsUniqueJoin(a: seq<GdsRow>, b: seq<GdsRow>)
    requires Registry.GdsUnique(a) && Registry.GdsUnique(b)
    requires Registry.GdsKeys(a) !! Registry.GdsKeys(b)
    ensures Registry.GdsUnique(a + b)
  {
    forall j, k | 0 <= j < k < |a + b| ensures (a + b)[j].gdsUid != (a + b)[k].gdsUid {
      if k >= |a| {
        assert (a + b)[k] == b[k - |a|];
        if j >= |a| {
          assert (a + b)[j] == b[j - |a|];
        } else {
          assert (a + b)[j] == a[j];
          assert a[j].gdsUid in Registry.GdsKeys(a);
          assert b[k - |a|].gdsUid in Registry.GdsKeys(b);
        }
      }
    }
  }

  /** On a consistent registry without duplicates and a batch without
      duplicate keys, the strict registration keeps the tables free of
      duplicates exactly when no DOI of the batch has more than one
      primary outcome: a DOI with several primary links is stored once
      per link. */
  lemma StrictUniqueIff(reg: Registry.Registry, gds: seq<GdsRow>, pubs: seq<PublicationRow>,
                        srcs: seq<SourceRow>, attempt: Policy.Attempt)
    requires Registry.Consistent(reg) && Registry.Unique(reg)
    requires Registry.GdsUnique(gds) && Registry.PublicationsUnique(pubs)
    requires RegisterStrict(reg, gds, pubs, srcs, attempt).Success?
    ensures Registry.Unique(RegisterStrict(reg, gds, pubs, srcs, attempt).value.registry) <==>
              forall i :: 0 <= i < |pubs| ==> |OutcomesFor(BatchOutcomes(pubs, srcs, attempt), pubs[i].doi)| <= 1
  {
    var outs := BatchOutcomes(pubs, srcs, attempt);
    var merged := MergeLeft(pubs, outs);
    GdsUniqueJoin(reg.gds, gds);
    MergeLeftKeys(pubs, outs);
    MergeUniqueIff(pubs, outs);
    if Registry.PublicationsUnique(merged) {
      UniqueJoin(reg.publications, merged);
    }
    if Registry.PublicationsUnique(reg.publications + merged) {
      UniqueParts(reg.publications, merged);
    }
  }

  // A free publication with one failing primary link and one working
  // secondary link.

  const ExDoi: string := "10.1_slash1"
  const ExPub: PublicationRow := PublicationRow(ExDoi, "1", true, "title", "abstract", NotAttempted)
  const ExPrimary: SourceRow := SourceRow(ExDoi, Crawler.PrimaryDomain, "p")
  const ExSecondary: SourceRow := SourceRow(ExDoi, "x.org", "s")
  const ExSources: seq<SourceRow> := [ExPrimary, ExSecondary]
  const ExAttempt: Policy.Attempt := (doi: string, link: string) => link == "s"

  lemma ExampleLinks()
    ensures ExPrimary in Policy.PrimaryLinks([ExPub], ExSources)
    ensures ExSecondary in Policy.SecondaryLinks([ExPub], ExSources)
    ensures forall x :: x in Policy.PrimaryLinks([ExPub], ExSources) ==> x == ExPrimary
  {
    assert ExSources[1..] == [ExSecondary] && [ExSecondary][1..] == [];
    assert "x.org" != Crawler.PrimaryDomain;
    assert ExDoi in Policy.FreeDois([ExPub]) by {
      assert [ExPub][0].isFreePmc && [ExPub][0].doi == ExDoi;
    }
    assert ExPrimary in Policy.FreeLinks([ExPub], ExSources) && ExSecondary in Policy.FreeLinks([ExPub], ExSources);
  }

  /** The main class retries the DOI on its secondary link after the
      primary one fails, and stores it as downloaded. */
  lemma MainRetriesExample()
    ensures Registry.RegisterPublication(Registry.Open([], [], []), [ExPub], ExSources, ExAttempt).registry.publications
              == [ExPub.(download := Succeeded)]
  {
    var reg := Registry.Open([], [], []);
    assert ExSources[1..] == [ExSecondary] && [ExSecondary][1..] == [];
    assert Registry.FilterPublications([ExPub], reg.publicationIndex) == [ExPub];
    assert Registry.FilterSources(ExSources, reg.publicationIndex) == ExSources;
    ExampleDownloads();
    var stored := Registry.RegisterPublication(reg, [ExPub], ExSources, ExAttempt).registry.publications;
    assert stored == stored[|reg.publications|..];
  }

  lemma ExampleDownloads()
    ensures Policy.Downloads([ExPub], ExSources, ExAttempt).value.0 == [ExPub.(download := Succeeded)]
  {
    ExampleExpected();
    Policy.DownloadsStatus([ExPub], ExSources, ExAttempt);
    Registry.DownloadsKeepDois([ExPub], ExSources, ExAttempt);
  }

  /** In the example the DOI's primary link fails and its secondary link
      succeeds, so the main class expects it downloaded. */
  lemma ExampleExpected()
    ensures Policy.ExpectedStatus([ExPub], ExSources, ExAttempt, 0) == Succeeded
  {
    var d := ExDoi;
    ExampleLinks();
    var prim := Policy.PrimaryLinks([ExPub], ExSources);
    var sec := Policy.SecondaryLinks([ExPub], ExSources);
    assert Policy.LastFor(d, prim, ExAttempt) == Some(false) by {
      var r := Policy.LastFor(d, prim, ExAttempt);
      var j :| 0 <= j < |prim| && prim[j].doi == d && r.value == Policy.Succeeds(ExAttempt, prim[j]);
      assert prim[j] in prim;
    }
    assert Policy.FirstStatus([ExPub], d) == Some(NotAttempted);
    var group := Policy.Group(sec, d);
    assert ExSecondary in group;
    assert Policy.AnySucceeds(group, ExAttempt) by {
      var k :| 0 <= k < |group| && group[k] == ExSecondary;
    }
  }

  /** The variant skips the secondary link because the DOI has a primary
      outcome, and stores the failed primary outcome in every row of it. */
  lemma VariantSkipsExample()
    ensures RegisterStrict(Registry.Open([], [], []), [], [ExPub], ExSources, ExAttempt).Success?
    ensures var r := RegisterStrict(Registry.Open([], [], []), [], [ExPub], ExSources, ExAttempt).value;
            && r.registry.publications != []
            && (forall x :: x in r.registry.publications ==> x == ExPub.(download := Failed))
            && Policy.TryOf(ExSecondary) !in r.attempts
  {
    var d := ExDoi;
    var reg := Registry.Open([], [], []);
    ExampleLinks();
    var prim := Policy.PrimaryLinks([ExPub], ExSources);
    var outs := BatchOutcomes([ExPub], ExSources, ExAttempt);
    forall k | 0 <= k < |outs| ensures outs[k] == PrimaryOutcome(d, false) {
      assert prim[k] in prim;
    }
    assert d in OutcomeDois(outs) by {
      var k :| 0 <= k < |prim| && prim[k] == ExPrimary;
      assert outs[k].doi == d;
    }
    assert !Clashes(reg, [], [ExPub]);
    var strict := RegisterStrict(reg, [], [ExPub], ExSources, ExAttempt);
    assert MergeLeft([ExPub], outs) == MergeRow(ExPub, outs);
    var ts := strict.value.attempts;
    forall k | 0 <= k < |ts| ensures ts[k] != Policy.TryOf(ExSecondary) {
      if k < |prim| {
        assert ts[..|prim|][k] == ts[k];
        assert prim[k] in prim;
      } else {
        assert ts[|prim|..][k - |prim|] == ts[k];
      }
    }
  }
}
