/** The download policy of `_register_publication` (Nspider.py:91-120).
    Only links of free-PMC publications in the batch are tried. Every
    link on the primary domain is tried once, in order, and each outcome
    overwrites the publication's status, so the last one stands. Then, per
    DOI, the secondary links are tried in order until one succeeds, unless
    the DOI is already marked successful; the status becomes the outcome
    of the last attempt.

    An attempt is `bool(_download_paper_and_rename(doi, link))`; its
    outcome is an oracle on the pair, see module Download for the attempt
    itself. */
module Policy {
  import opened Wrappers
  import opened Tables
  import Crawler

  type Attempt = (string, string) -> bool

  /** One call of the download step, in the order calls are made. */
  datatype Try = Try(doi: string, link: string)

  function TryOf(s: SourceRow): Try { Try(s.doi, s.linkToPaper) }

  function Tries(links: seq<SourceRow>): (r: seq<Try>)
    ensures |r| == |links| && forall k :: 0 <= k < |links| ==> r[k] == TryOf(links[k])
  {
    seq(|links|, k requires 0 <= k < |links| => TryOf(links[k]))
  }

  function Succeeds(attempt: Attempt, s: SourceRow): bool { attempt(s.doi, s.linkToPaper) }

  function StatusOf(ok: bool): DownloadStatus { if ok then Succeeded else Failed }

  /** The rows satisfying `p`, in their original order: a boolean-mask
      selection `frame[mask]`. */
  function Keep<T(!new)>(rows: seq<T>, p: T -> bool): (r: seq<T>)
    ensures forall x :: x in r <==> x in rows && p(x)
    ensures |r| <= |rows|
  {
    if rows == [] then []
    else (if p(rows[0]) then [rows[0]] else []) + Keep(rows[1..], p)
  }

  /** Nothing is kept exactly when no row satisfies `p`. */
  lemma KeepEmptyIff<T(!new)>(rows: seq<T>, p: T -> bool)
    ensures Keep(rows, p) == [] <==> forall x :: x in rows ==> !p(x)
  {
    var r := Keep(rows, p);
    if r != [] {
      assert r[0] in r;
    }
  }

  /** When every row satisfies `p`, all rows are kept, in order. */
  lemma {:induction false} KeepAll<T(!new)>(rows: seq<T>, p: T -> bool)
    requires forall k :: 0 <= k < |rows| ==> p(rows[k])
    ensures Keep(rows, p) == rows
    decreases |rows|
  {
    if rows != [] {
      assert forall k :: 0 <= k < |rows[1..]| ==> rows[1..][k] == rows[k + 1];
      KeepAll(rows[1..], p);
      assert rows == [rows[0]] + rows[1..];
    }
  }

  /** DOIs of the free-PMC publications of the batch. */
  function FreeDois(pubs: seq<PublicationRow>): (r: set<string>)
    ensures forall d :: d in r <==> exists i :: 0 <= i < |pubs| && pubs[i].isFreePmc && pubs[i].doi == d
  {
    set i | 0 <= i < |pubs| && pubs[i].isFreePmc :: pubs[i].doi
  }

  /** `free_pmc_links` and its split by domain (Nspider.py:91-94, 102). */
  function FreeLinks(pubs: seq<PublicationRow>, srcs: seq<SourceRow>): seq<SourceRow>
  {
    var free := FreeDois(pubs);
    Keep(srcs, (s: SourceRow) => s.doi in free)
  }

  function PrimaryLinks(pubs: seq<PublicationRow>, srcs: seq<SourceRow>): seq<SourceRow>
  {
    Keep(FreeLinks(pubs, srcs), (s: SourceRow) => s.srcDomain == Crawler.PrimaryDomain)
  }

  function SecondaryLinks(pubs: seq<PublicationRow>, srcs: seq<SourceRow>): seq<SourceRow>
  {
    Keep(FreeLinks(pubs, srcs), (s: SourceRow) => s.srcDomain != Crawler.PrimaryDomain)
  }

  /** `publication.loc[doi == publication.doi, 'successful_donwload'] = ok`. */
  function SetStatus(pubs: seq<PublicationRow>, doi: string, ok: bool): (r: seq<PublicationRow>)
    ensures |r| == |pubs|
    ensures forall i :: 0 <= i < |pubs| ==>
              r[i] == if pubs[i].doi == doi then pubs[i].(download := StatusOf(ok)) else pubs[i]
  {
    seq(|pubs|, i requires 0 <= i < |pubs| =>
      if pubs[i].doi == doi then pubs[i].(download := StatusOf(ok)) else pubs[i])
  }

  // ---------------------------------------------------------------------
  // Primary-domain links (Nspider.py:96-100)

  /** Reference definition, read from the back: the outcome of the last
      link of `doi` among `links`. */
  function LastFor(doi: string, links: seq<SourceRow>, attempt: Attempt): (r: Option<bool>)
    ensures r.None? <==> forall k :: 0 <= k < |links| ==> links[k].doi != doi
    ensures r.Some? ==> exists k :: 0 <= k < |links| && links[k].doi == doi && r.value == Succeeds(attempt, links[k])
                                    && forall j :: k < j < |links| ==> links[j].doi != doi
  {
    if links == [] then None
    else
      var last := links[|links| - 1];
      if last.doi == doi then Some(Succeeds(attempt, last))
      else
        var r := LastFor(doi, links[..|links| - 1], attempt);
        LastForSkips(doi, links, attempt, r);
        r
  }

  /** A link of another DOI at the end does not change the last outcome. */
  lemma LastForSkips(doi: string, links: seq<SourceRow>, attempt: Attempt, r: Option<bool>)
    requires links != [] && links[|links| - 1].doi != doi
    requires var pre := links[..|links| - 1];
             && (r.None? <==> forall k :: 0 <= k < |pre| ==> pre[k].doi != doi)
             && (r.Some? ==> exists k :: 0 <= k < |pre| && pre[k].doi == doi && r.value == Succeeds(attempt, pre[k])
                                         && forall j :: k < j < |pre| ==> pre[j].doi != doi)
    ensures r.None? <==> forall k :: 0 <= k < |links| ==> links[k].doi != doi
    ensures r.Some? ==> exists k :: 0 <= k < |links| && links[k].doi == doi && r.value == Succeeds(attempt, links[k])
                                    && forall j :: k < j < |links| ==> links[j].doi != doi
  {
    var pre := links[..|links| - 1];
    assert forall k :: 0 <= k < |pre| ==> pre[k] == links[k];
    if r.Some? {
      var k :| 0 <= k < |pre| && pre[k].doi == doi && r.value == Succeeds(attempt, pre[k])
                && forall j :: k < j < |pre| ==> pre[j].doi != doi;
      assert links[k] == pre[k];
    }
  }

  lemma {:induction false} LastForCons(doi: string, x: SourceRow, xs: seq<SourceRow>, attempt: Attempt)
    ensures LastFor(doi, [x] + xs, attempt) ==
              if LastFor(doi, xs, attempt).Some? then LastFor(doi, xs, attempt)
              else if x.doi == doi then Some(Succeeds(attempt, x))
              else None
    decreases |xs|
  {
    var s := [x] + xs;
    if xs != [] {
      assert s[|s| - 1] == xs[|xs| - 1];
      assert s[..|s| - 1] == [x] + xs[..|xs| - 1];
      LastForCons(doi, x, xs[..|xs| - 1], attempt);
    }
  }

  /** A status after the primary pass: the outcome of the last primary
      link of the DOI, or `st` unchanged when it has none. */
  function Overwrite(last: Option<bool>, st: DownloadStatus): DownloadStatus
  {
    match last
    case None => st
    case Some(ok) => StatusOf(ok)
  }

  /** A row after the primary pass. */
  function AfterPrimary(row: PublicationRow, last: Option<bool>): PublicationRow
  {
    row.(download := Overwrite(last, row.download))
  }

  /** The loop of Nspider.py:96-100: every primary link is attempted once,
      in order, and each outcome overwrites its DOI's status. */
  function RunPrimary(pubs: seq<PublicationRow>, prim: seq<SourceRow>, attempt: Attempt): (r: (seq<PublicationRow>, seq<Try>))
    ensures r.1 == Tries(prim)
    ensures |r.0| == |pubs|
    ensures forall i :: 0 <= i < |pubs| ==> r.0[i] == AfterPrimary(pubs[i], LastFor(pubs[i].doi, prim, attempt))
    decreases |prim|
  {
    if prim == [] then (pubs, [])
    else
      var p1 := SetStatus(pubs, prim[0].doi, Succeeds(attempt, prim[0]));
      var rest := RunPrimary(p1, prim[1..], attempt);
      forall i | 0 <= i < |pubs|
        ensures rest.0[i] == AfterPrimary(pubs[i], LastFor(pubs[i].doi, prim, attempt))
      {
        assert prim == [prim[0]] + prim[1..];
        LastForCons(pubs[i].doi, prim[0], prim[1..], attempt);
      }
      assert Tries(prim) == [TryOf(prim[0])] + Tries(prim[1..]);
      (rest.0, [TryOf(prim[0])] + rest.1)
  }

  // ---------------------------------------------------------------------
  // Secondary links, per DOI (Nspider.py:102-120)

  /** The rows of one `groupby` group. */
  function Group(sec: seq<SourceRow>, doi: string): seq<SourceRow>
  {
    Keep(sec, (s: SourceRow) => s.doi == doi)
  }

  /** The group keys, each once, in order of first appearance. */
  function DistinctDois(links: seq<SourceRow>): (r: seq<string>)
    ensures forall j, k :: 0 <= j < k < |r| ==> r[j] != r[k]
    ensures forall d :: d in r <==> exists k :: 0 <= k < |links| && links[k].doi == d
    decreases |links|
  {
    if links == [] then []
    else
      var d := links[0].doi;
      var rest := Keep(links[1..], (s: SourceRow) => s.doi != d);
      var r := DistinctDois(rest);
      forall e ensures (exists k :: 0 <= k < |links| && links[k].doi == e) ==> e == d || e in r {
        if exists k :: 0 <= k < |links| && links[k].doi == e {
          var k :| 0 <= k < |links| && links[k].doi == e;
          if e != d {
            assert links[k] in rest;
          }
        }
      }
      forall e | e in r ensures e != d && exists k :: 0 <= k < |links| && links[k].doi == e {
        var j :| 0 <= j < |rest| && rest[j].doi == e;
        assert rest[j] in rest;
        assert rest[j] in links[1..];
      }
      assert forall k :: 1 <= k < |r| + 1 ==> ([d] + r)[k] == r[k - 1] && r[k - 1] in r;
      [d] + r
  }

  /** Position of the first publication row of a DOI. */
  function FirstIndex(pubs: seq<PublicationRow>, doi: string): (r: Option<nat>)
    ensures r.None? <==> forall i :: 0 <= i < |pubs| ==> pubs[i].doi != doi
    ensures r.Some? ==> r.value < |pubs| && pubs[r.value].doi == doi
                        && forall j :: 0 <= j < r.value ==> pubs[j].doi != doi
  {
    if pubs == [] then None
    else if pubs[0].doi == doi then Some(0)
    else
      var r := FirstIndex(pubs[1..], doi);
      assert forall i :: 1 <= i < |pubs| ==> pubs[i] == pubs[1..][i - 1];
      if r.Some? then Some(r.value + 1) else None
  }

  /** The two tables list the same DOIs in the same order. */
  predicate SameDois(a: seq<PublicationRow>, b: seq<PublicationRow>)
  {
    |a| == |b| && forall i :: 0 <= i < |a| ==> a[i].doi == b[i].doi
  }

  lemma FirstIndexSameDois(a: seq<PublicationRow>, b: seq<PublicationRow>, doi: string)
    requires SameDois(a, b)
    ensures FirstIndex(a, doi) == FirstIndex(b, doi)
  {
    var x := FirstIndex(a, doi);
    var y := FirstIndex(b, doi);
    if x.Some? && y.Some? {
      assert b[x.value].doi == doi;
      assert a[y.value].doi == doi;
    }
  }

  /** The status of the first publication row of a DOI (`.values[0]`);
      `None` where that would raise `IndexError`. */
  function FirstStatus(pubs: seq<PublicationRow>, doi: string): (r: Option<DownloadStatus>)
    ensures r.None? <==> forall i :: 0 <= i < |pubs| ==> pubs[i].doi != doi
  {
    match FirstIndex(pubs, doi)
    case None => None
    case Some(i) => Some(pubs[i].download)
  }

  /** Some link of the group succeeds. */
  predicate AnySucceeds(group: seq<SourceRow>, attempt: Attempt)
  {
    exists k :: 0 <= k < |group| && Succeeds(attempt, group[k])
  }

  /** The inner loop of Nspider.py:111-118: the group's links in order
      until the first success. The result is the last outcome, which is
      whether any link of the group succeeds; every link before the last
      one tried failed, and all are tried when none succeeds. */
  function TryUntilSuccess(group: seq<SourceRow>, attempt: Attempt): (r: (bool, seq<Try>))
    ensures r.0 <==> AnySucceeds(group, attempt)
    ensures |r.1| <= |group| && r.1 == Tries(group[..|r.1|])
    ensures forall k :: 0 <= k < |r.1| - 1 ==> !Succeeds(attempt, group[k])
    ensures r.0 ==> r.1 != [] && Succeeds(attempt, group[|r.1| - 1])
    ensures !r.0 ==> |r.1| == |group|
  {
    if group == [] then (false, [])
    else if Succeeds(attempt, group[0]) then
      assert Tries(group[..1]) == [TryOf(group[0])];
      (true, [TryOf(group[0])])
    else
      var rest := TryUntilSuccess(group[1..], attempt);
      assert forall k :: 1 <= k < |group| ==> group[k] == group[1..][k - 1];
      assert Tries(group[..|rest.1| + 1]) == [TryOf(group[0])] + Tries(group[1..][..|rest.1|]);
      (rest.0, [TryOf(group[0])] + rest.1)
  }

  /** The group loop: a DOI whose first row is already marked successful
      is skipped; otherwise its status becomes the group's outcome. */
  function RunSecondary(pubs: seq<PublicationRow>, dois: seq<string>, sec: seq<SourceRow>, attempt: Attempt)
    : (r: Result<(seq<PublicationRow>, seq<Try>)>)
    ensures r.Success? ==> |r.value.0| == |pubs|
    ensures r.Success? ==> forall i :: 0 <= i < |pubs| ==> r.value.0[i].(download := pubs[i].download) == pubs[i]
    decreases |dois|
  {
    if dois == [] then Success((pubs, []))
    else match FirstStatus(pubs, dois[0])
      case None => Failure("IndexError")
      case Some(st) =>
        var p1 := if st == Succeeded then pubs else SetStatus(pubs, dois[0], TryUntilSuccess(Group(sec, dois[0]), attempt).0);
        var tried := if st == Succeeded then [] else TryUntilSuccess(Group(sec, dois[0]), attempt).1;
        match RunSecondary(p1, dois[1..], sec, attempt)
        case Failure(e) => Failure(e)
        case Success(rest) => Success((rest.0, tried + rest.1))
  }

  /** The attempt is one of the given links. */
  predicate Offered(t: Try, links: seq<SourceRow>)
  {
    exists s :: s in links && TryOf(s) == t
  }

  /** Every link the group loop tries is a secondary link. */
  lemma {:induction false} SecondaryTriesFromLinks(pubs: seq<PublicationRow>, dois: seq<string>, sec: seq<SourceRow>, attempt: Attempt)
    requires RunSecondary(pubs, dois, sec, attempt).Success?
    ensures forall k :: 0 <= k < |RunSecondary(pubs, dois, sec, attempt).value.1| ==>
              Offered(RunSecondary(pubs, dois, sec, attempt).value.1[k], sec)
    decreases |dois|
  {
    if dois != [] {
      var st := FirstStatus(pubs, dois[0]).value;
      var t := TryUntilSuccess(Group(sec, dois[0]), attempt);
      var p1 := if st == Succeeded then pubs else SetStatus(pubs, dois[0], t.0);
      var tried := if st == Succeeded then [] else t.1;
      GroupTriesOffered(sec, dois[0], attempt);
      SecondaryTriesFromLinks(p1, dois[1..], sec, attempt);
      var rest := RunSecondary(p1, dois[1..], sec, attempt).value.1;
      assert RunSecondary(pubs, dois, sec, attempt).value.1 == tried + rest;
      OfferedConcat(tried, rest, sec);
    }
  }

  /** The links one group tries are secondary links. */
  lemma GroupTriesOffered(sec: seq<SourceRow>, d: string, attempt: Attempt)
    ensures forall k :: 0 <= k < |TryUntilSuccess(Group(sec, d), attempt).1| ==>
              Offered(TryUntilSuccess(Group(sec, d), attempt).1[k], sec)
  {
    var g := Group(sec, d);
    var t := TryUntilSuccess(g, attempt).1;
    forall k | 0 <= k < |t| ensures Offered(t[k], sec) {
      assert g[k] in g;
    }
  }

  lemma OfferedConcat(a: seq<Try>, b: seq<Try>, links: seq<SourceRow>)
    requires forall k :: 0 <= k < |a| ==> Offered(a[k], links)
    requires forall k :: 0 <= k < |b| ==> Offered(b[k], links)
    ensures forall k :: 0 <= k < |a + b| ==> Offered((a + b)[k], links)
  {
    forall k | 0 <= k < |a + b| ensures Offered((a + b)[k], links) {
      if k >= |a| {
        assert (a + b)[k] == b[k - |a|];
      }
    }
  }

  /** Setting one DOI's status leaves what every other DOI's first row
      reports unchanged. */
  lemma FirstStatusOther(pubs: seq<PublicationRow>, d0: string, ok: bool, d: string)
    requires d != d0
    ensures FirstStatus(SetStatus(pubs, d0, ok), d) == FirstStatus(pubs, d)
  {
    var p1 := SetStatus(pubs, d0, ok);
    FirstIndexSameDois(p1, pubs, d);
  }

  /** What the group loop does to each row: a row whose DOI has a group
      and whose DOI's first row is not yet successful takes the group's
      outcome; every other row is left as it was. */
  lemma {:induction false} SecondaryEffect(pubs: seq<PublicationRow>, dois: seq<string>, sec: seq<SourceRow>, attempt: Attempt)
    requires forall j, k :: 0 <= j < k < |dois| ==> dois[j] != dois[k]
    requires forall k :: 0 <= k < |dois| ==> FirstStatus(pubs, dois[k]).Some?
    ensures RunSecondary(pubs, dois, sec, attempt).Success?
    ensures forall i :: 0 <= i < |pubs| ==>
              RunSecondary(pubs, dois, sec, attempt).value.0[i] ==
                if pubs[i].doi in dois && FirstStatus(pubs, pubs[i].doi) != Some(Succeeded)
                then pubs[i].(download := StatusOf(TryUntilSuccess(Group(sec, pubs[i].doi), attempt).0))
                else pubs[i]
    decreases |dois|
  {
    if dois != [] {
      var d0 := dois[0];
      var st := FirstStatus(pubs, d0).value;
      var ok := TryUntilSuccess(Group(sec, d0), attempt).0;
      var p1 := if st == Succeeded then pubs else SetStatus(pubs, d0, ok);
      forall d | d != d0 ensures FirstStatus(p1, d) == FirstStatus(pubs, d) {
        FirstStatusOther(pubs, d0, ok, d);
      }
      assert forall k :: 0 <= k < |dois[1..]| ==> dois[1..][k] == dois[k + 1] && dois[k + 1] != d0;
      SecondaryEffect(p1, dois[1..], sec, attempt);
      var r := RunSecondary(pubs, dois, sec, attempt).value.0;
      assert r == RunSecondary(p1, dois[1..], sec, attempt).value.0;
      forall i | 0 <= i < |pubs|
        ensures r[i] == if pubs[i].doi in dois && FirstStatus(pubs, pubs[i].doi) != Some(Succeeded)
                        then pubs[i].(download := StatusOf(TryUntilSuccess(Group(sec, pubs[i].doi), attempt).0))
                        else pubs[i]
      {
        if pubs[i].doi == d0 {
          assert pubs[i].doi !in dois[1..];
        } else {
          assert p1[i] == pubs[i];
          assert pubs[i].doi in dois <==> pubs[i].doi in dois[1..];
        }
      }
    }
  }

  // ---------------------------------------------------------------------
  // Both passes together (Nspider.py:91-120)

  /** The download passes over a batch of novel publications and their
      sources: the publication rows with their statuses set, and the
      attempts made, in order. The `.values[0]` lookup never fails,
      because every free link belongs to a publication of the batch. */
  function Downloads(pubs: seq<PublicationRow>, srcs: seq<SourceRow>, attempt: Attempt)
    : (r: Result<(seq<PublicationRow>, seq<Try>)>)
    ensures r.Success?
    ensures |r.value.0| == |pubs|
    ensures |PrimaryLinks(pubs, srcs)| <= |r.value.1|
    ensures r.value.1[..|PrimaryLinks(pubs, srcs)|] == Tries(PrimaryLinks(pubs, srcs))
  {
    var prim := PrimaryLinks(pubs, srcs);
    var sec := SecondaryLinks(pubs, srcs);
    var first := RunPrimary(pubs, prim, attempt);
    var dois := DistinctDois(sec);
    SecondaryLookupsSucceed(pubs, srcs, attempt, first.0, dois);
    SecondaryEffect(first.0, dois, sec, attempt);
    var second := RunSecondary(first.0, dois, sec, attempt).value;
    assert (first.1 + second.1)[..|prim|] == first.1;
    Success((second.0, first.1 + second.1))
  }

  /** Every secondary link belongs to a free publication of the batch. */
  lemma SecondaryLinksFree(pubs: seq<PublicationRow>, srcs: seq<SourceRow>, k: nat)
    requires k < |SecondaryLinks(pubs, srcs)|
    ensures FirstIndex(pubs, SecondaryLinks(pubs, srcs)[k].doi).Some?
  {
    var sec := SecondaryLinks(pubs, srcs);
    assert sec[k] in sec;
    assert sec[k] in FreeLinks(pubs, srcs);
    assert sec[k].doi in FreeDois(pubs);
  }

  /** The primary pass keeps every row's DOI where it was. */
  lemma PrimaryKeepsDois(pubs: seq<PublicationRow>, prim: seq<SourceRow>, attempt: Attempt)
    ensures SameDois(RunPrimary(pubs, prim, attempt).0, pubs)
  {
  }

  /** Every DOI with a secondary link has a row in the batch, before and
      after the primary pass. */
  lemma SecondaryLookupsSucceed(pubs: seq<PublicationRow>, srcs: seq<SourceRow>, attempt: Attempt,
                                first: seq<PublicationRow>, dois: seq<string>)
    requires first == RunPrimary(pubs, PrimaryLinks(pubs, srcs), attempt).0
    requires dois == DistinctDois(SecondaryLinks(pubs, srcs))
    ensures forall k :: 0 <= k < |dois| ==> FirstStatus(first, dois[k]).Some? && FirstStatus(pubs, dois[k]).Some?
  {
    var sec := SecondaryLinks(pubs, srcs);
    forall j | 0 <= j < |sec| ensures FirstIndex(pubs, sec[j].doi).Some? {
      SecondaryLinksFree(pubs, srcs, j);
    }
    PrimaryKeepsDois(pubs, PrimaryLinks(pubs, srcs), attempt);
    LookupsSucceed(pubs, RunPrimary(pubs, PrimaryLinks(pubs, srcs), attempt).0, sec);
  }

  lemma LookupsSucceed(pubs: seq<PublicationRow>, first: seq<PublicationRow>, sec: seq<SourceRow>)
    requires SameDois(first, pubs)
    requires forall j :: 0 <= j < |sec| ==> FirstIndex(pubs, sec[j].doi).Some?
    ensures forall k :: 0 <= k < |DistinctDois(sec)| ==>
              FirstStatus(first, DistinctDois(sec)[k]).Some? && FirstStatus(pubs, DistinctDois(sec)[k]).Some?
  {
    var dois := DistinctDois(sec);
    forall k | 0 <= k < |dois| ensures FirstStatus(first, dois[k]).Some? && FirstStatus(pubs, dois[k]).Some? {
      assert dois[k] in dois;
      var j :| 0 <= j < |sec| && sec[j].doi == dois[k];
      FirstIndexSameDois(first, pubs, dois[k]);
    }
  }

  /** Reference definition of the status a publication row ends with,
      stated per row: the last primary outcome of its DOI if there is one;
      then, if the DOI has secondary links and its first row is not marked
      successful, whether any of those links succeeds. */
  function ExpectedStatus(pubs: seq<PublicationRow>, srcs: seq<SourceRow>, attempt: Attempt, i: nat): DownloadStatus
    requires i < |pubs|
  {
    var d := pubs[i].doi;
    var last := LastFor(d, PrimaryLinks(pubs, srcs), attempt);
    var leading := Overwrite(last, FirstStatus(pubs, d).value);
    var mine := Overwrite(last, pubs[i].download);
    var group := Group(SecondaryLinks(pubs, srcs), d);
    if group == [] || leading == Succeeded then mine
    else StatusOf(AnySucceeds(group, attempt))
  }

  /** After the primary pass, a DOI's first row carries the DOI's last
      primary outcome, or its incoming status when it had no primary link. */
  lemma FirstStatusAfterPrimary(pubs: seq<PublicationRow>, prim: seq<SourceRow>, attempt: Attempt, d: string)
    requires FirstStatus(pubs, d).Some?
    ensures FirstStatus(RunPrimary(pubs, prim, attempt).0, d) ==
              Some(Overwrite(LastFor(d, prim, attempt), FirstStatus(pubs, d).value))
  {
    var p1 := RunPrimary(pubs, prim, attempt).0;
    PrimaryKeepsDois(pubs, prim, attempt);
    FirstIndexSameDois(p1, pubs, d);
    var k := FirstIndex(pubs, d).value;
    assert p1[k] == AfterPrimary(pubs[k], LastFor(d, prim, attempt));
  }

  /** Every row ends with the reference status, and nothing else about a
      row changes. */
  lemma DownloadsStatus(pubs: seq<PublicationRow>, srcs: seq<SourceRow>, attempt: Attempt)
    ensures forall i :: 0 <= i < |pubs| ==>
              Downloads(pubs, srcs, attempt).value.0[i] == pubs[i].(download := ExpectedStatus(pubs, srcs, attempt, i))
  {
    var prim := PrimaryLinks(pubs, srcs);
    var sec := SecondaryLinks(pubs, srcs);
    var first := RunPrimary(pubs, prim, attempt).0;
    var dois := DistinctDois(sec);
    SecondaryLookupsSucceed(pubs, srcs, attempt, first, dois);
    SecondaryEffect(first, dois, sec, attempt);
    var out := Downloads(pubs, srcs, attempt).value.0;
    assert out == RunSecondary(first, dois, sec, attempt).value.0;
    forall i | 0 <= i < |pubs|
      ensures out[i] == pubs[i].(download := ExpectedStatus(pubs, srcs, attempt, i))
    {
      var d := pubs[i].doi;
      var last := LastFor(d, prim, attempt);
      var group := Group(sec, d);
      assert first[i] == pubs[i].(download := Overwrite(last, pubs[i].download));
      assert FirstStatus(pubs, d).Some?;
      FirstStatusAfterPrimary(pubs, prim, attempt, d);
      GroupEmptyIff(sec, d);
      RowCombine(pubs[i], first[i], out[i], Overwrite(last, pubs[i].download), Overwrite(last, FirstStatus(pubs, d).value),
                 d in dois, group == [], FirstStatus(first, d),
                 AnySucceeds(group, attempt), TryUntilSuccess(group, attempt).0, ExpectedStatus(pubs, srcs, attempt, i));
    }
  }

  /** The propositional step of `DownloadsStatus` for one row, over plain values. */
  lemma RowCombine(p: PublicationRow, f: PublicationRow, row: PublicationRow, mine: DownloadStatus,
                   leading: DownloadStatus, inDois: bool, groupEmpty: bool, fs: Option<DownloadStatus>,
                   any: bool, tried: bool, expected: DownloadStatus)
    requires f == p.(download := mine)
    requires fs == Some(leading)
    requires inDois <==> !groupEmpty
    requires tried == any
    requires expected == if groupEmpty || leading == Succeeded then mine else StatusOf(any)
    requires row == if inDois && fs != Some(Succeeded) then f.(download := StatusOf(tried)) else f
    ensures row == p.(download := expected)
  {
  }

  lemma GroupEmptyIff(sec: seq<SourceRow>, d: string)
    ensures Group(sec, d) == [] <==> d !in DistinctDois(sec)
  {
    if Group(sec, d) != [] {
      var g := Group(sec, d);
      assert g[0] in g;
      var j :| 0 <= j < |sec| && sec[j] == g[0];
    }
    if d in DistinctDois(sec) {
      var j :| 0 <= j < |sec| && sec[j].doi == d;
      assert sec[j] in Group(sec, d);
    }
  }

  /** Every attempt made is of a link of a free-PMC publication. */
  lemma OnlyFreeLinksTried(pubs: seq<PublicationRow>, srcs: seq<SourceRow>, attempt: Attempt)
    ensures forall k :: 0 <= k < |Downloads(pubs, srcs, attempt).value.1| ==>
              Offered(Downloads(pubs, srcs, attempt).value.1[k], FreeLinks(pubs, srcs))
  {
    var prim := PrimaryLinks(pubs, srcs);
    var sec := SecondaryLinks(pubs, srcs);
    var first := RunPrimary(pubs, prim, attempt);
    var dois := DistinctDois(sec);
    SecondaryLookupsSucceed(pubs, srcs, attempt, first.0, dois);
    SecondaryEffect(first.0, dois, sec, attempt);
    SecondaryTriesFromLinks(first.0, dois, sec, attempt);
    var second := RunSecondary(first.0, dois, sec, attempt).value;
    assert Downloads(pubs, srcs, attempt).value.1 == first.1 + second.1;
    forall k | 0 <= k < |first.1| ensures Offered(first.1[k], prim) {
      assert prim[k] in prim;
    }
    OfferedWeaken(first.1, prim, FreeLinks(pubs, srcs));
    OfferedWeaken(second.1, sec, FreeLinks(pubs, srcs));
    OfferedConcat(first.1, second.1, FreeLinks(pubs, srcs));
  }

  lemma OfferedWeaken(ts: seq<Try>, a: seq<SourceRow>, b: seq<SourceRow>)
    requires forall x :: x in a ==> x in b
    requires forall k :: 0 <= k < |ts| ==> Offered(ts[k], a)
    ensures forall k :: 0 <= k < |ts| ==> Offered(ts[k], b)
  {
    forall k | 0 <= k < |ts| ensures Offered(ts[k], b) {
      var t := ts[k];
      assert Offered(t, a);
      var s :| s in a && TryOf(s) == t;
      assert s in b;
    }
  }

  /** A publication that is not free PMC keeps its incoming row. */
  lemma NonFreeUnchanged(pubs: seq<PublicationRow>, srcs: seq<SourceRow>, attempt: Attempt)
    ensures forall i :: 0 <= i < |pubs| && pubs[i].doi !in FreeDois(pubs) ==>
              Downloads(pubs, srcs, attempt).value.0[i] == pubs[i]
  {
    DownloadsStatus(pubs, srcs, attempt);
    var prim := PrimaryLinks(pubs, srcs);
    var sec := SecondaryLinks(pubs, srcs);
    forall i | 0 <= i < |pubs| && pubs[i].doi !in FreeDois(pubs)
      ensures ExpectedStatus(pubs, srcs, attempt, i) == pubs[i].download
    {
      var d := pubs[i].doi;
      NonFreeHasNoLinks(pubs, srcs, attempt, d);
    }
  }

  /** A DOI outside the free set has no primary outcome and no
      secondary group. */
  lemma NonFreeHasNoLinks(pubs: seq<PublicationRow>, srcs: seq<SourceRow>, attempt: Attempt, d: string)
    requires d !in FreeDois(pubs)
    ensures LastFor(d, PrimaryLinks(pubs, srcs), attempt).None?
    ensures Group(SecondaryLinks(pubs, srcs), d) == []
  {
    var prim := PrimaryLinks(pubs, srcs);
    var sec := SecondaryLinks(pubs, srcs);
    forall k | 0 <= k < |prim| ensures prim[k].doi != d {
      assert prim[k] in prim;
    }
    forall k | 0 <= k < |sec| ensures sec[k].doi != d {
      assert sec[k] in sec;
    }
    GroupEmptyIff(sec, d);
  }
}
