/** The resolver that picks the publication describing a dataset when no
    direct cross-reference exists (scraping.py:143-196 and
    Nspider.py:219-242): candidates found by the first contributor's name
    are filtered by author set, ranked by distance in days from the
    dataset's release, checked for the accession token in their full text,
    and otherwise scored by word overlap with the dataset title. */
module Resolver {
  import opened Wrappers
  import opened Text
  import Identifiers
  import Matching

  /** One PubMed hit of the contributor search. The page-fetch, date-parse
      and PDF-text collaborators are replaced by their outputs. */
  datatype Candidate = Candidate(
    description: string,   // the `.rprt .desc` author text, e.g. "Smith J, Lee A."
    dayInterval: nat,      // |paper month (day 1) - dataset release| in days
    titleHref: string,     // the `.rprt .title a` link, ending in the PMID
    fullText: string,      // text of the downloaded PDF, "" when there is none
    abstractText: string)  // the stored abstract of the publication

  /** What the dataset's pages provide. */
  datatype DatasetPage = DatasetPage(accession: string, title: string, contributors: seq<string>)

  /** `(pmid, score, find_related_publication)`. */
  datatype Resolution = Resolution(pmid: string, score: Option<real>, found: bool)

  predicate Passes(contributors: seq<string>, c: Candidate)
  {
    Matching.IsTheirPublication(contributors, Identifiers.AuthorList(c.description))
  }

  function PmidOf(c: Candidate): string
  {
    Identifiers.LastSegment(c.titleHref)
  }

  // ---------------------------------------------------------------------
  // Filtering (scraping.py:169-173)

  predicate StrictlyIncreasing(s: seq<nat>)
  {
    forall j, k :: 0 <= j < k < |s| ==> s[j] < s[k]
  }

  /** `matched_idx` restricted to indices from `from` on, where `ok[i]` is
      the author test's answer for candidate `i`. */
  function Passing(ok: seq<bool>, from: nat): (r: seq<nat>)
    requires from <= |ok|
    ensures StrictlyIncreasing(r)
    ensures forall k :: 0 <= k < |r| ==> from <= r[k] < |ok|
    ensures forall i :: from <= i < |ok| ==> (i in r <==> ok[i])
    decreases |ok| - from
  {
    if from == |ok| then []
    else
      var rest := Passing(ok, from + 1);
      if ok[from] then [from] + rest else rest
  }

  function PassMask(contributors: seq<string>, cands: seq<Candidate>): (ok: seq<bool>)
    ensures |ok| == |cands|
    ensures forall i :: 0 <= i < |cands| ==> ok[i] == Passes(contributors, cands[i])
  {
    seq(|cands|, i requires 0 <= i < |cands| => Passes(contributors, cands[i]))
  }

  // ---------------------------------------------------------------------
  // Stable ranking by day interval (scraping.py:175-189)

  /** Index `i` comes before index `j`: a smaller interval, or the same
      interval and an earlier position in the search results. */
  predicate Before(key: seq<nat>, i: nat, j: nat)
    requires i < |key| && j < |key|
  {
    key[i] < key[j] || (key[i] == key[j] && i < j)
  }

  /** Non-decreasing by interval, equal intervals in their original order. */
  predicate Ranked(key: seq<nat>, r: seq<nat>)
  {
    && (forall k :: 0 <= k < |r| ==> r[k] < |key|)
    && (forall j, k :: 0 <= j < k < |r| ==> Before(key, r[j], r[k]))
  }

  function InsertRanked(key: seq<nat>, i: nat, s: seq<nat>): (r: seq<nat>)
    requires i < |key| && Ranked(key, s)
    requires forall k :: 0 <= k < |s| ==> s[k] < i
    ensures Ranked(key, r)
    ensures |r| == |s| + 1
    ensures forall x :: x in r <==> x in s || x == i
    ensures r[0] == i || (s != [] && r[0] == s[0])
  {
    if s == [] then [i]
    else if key[s[0]] <= key[i] then
      var rest := InsertRanked(key, i, s[1..]);
      assert forall k :: 0 <= k < |rest| ==> rest[k] in s[1..] || rest[k] == i;
      [s[0]] + rest
    else
      [i] + s
  }

  /** `sorted(matched_idx, key=interval)` for an ascending `matched_idx`. */
  function RankAll(key: seq<nat>, xs: seq<nat>): (r: seq<nat>)
    requires StrictlyIncreasing(xs)
    requires forall k :: 0 <= k < |xs| ==> xs[k] < |key|
    ensures Ranked(key, r)
    ensures |r| == |xs|
    ensures forall x :: x in r <==> x in xs
  {
    if xs == [] then []
    else
      var init := xs[..|xs| - 1];
      var rest := RankAll(key, init);
      assert forall x :: x in init ==> x < xs[|xs| - 1];
      assert forall k :: 0 <= k < |rest| ==> rest[k] in init;
      assert xs == init + [xs[|xs| - 1]];
      InsertRanked(key, xs[|xs| - 1], rest)
  }

  function Intervals(cands: seq<Candidate>): (key: seq<nat>)
    ensures |key| == |cands|
    ensures forall i :: 0 <= i < |cands| ==> key[i] == cands[i].dayInterval
  {
    seq(|cands|, i requires 0 <= i < |cands| => cands[i].dayInterval)
  }

  /** Ranking of the indices whose mask entry is set. */
  function RankMasked(ok: seq<bool>, key: seq<nat>): (r: seq<nat>)
    requires |ok| == |key|
    ensures forall i :: i in r <==> 0 <= i < |ok| && ok[i]
    ensures Ranked(key, r)
  {
    RankAll(key, Passing(ok, 0))
  }

  /** The candidate indices in the order the resolver tries them: exactly
      the author-passing indices, each once, closest release date first,
      ties in search-result order. */
  function RankCandidates(contributors: seq<string>, cands: seq<Candidate>): (r: seq<nat>)
    ensures forall i :: i in r <==> 0 <= i < |cands| && Passes(contributors, cands[i])
    ensures Ranked(Intervals(cands), r)
  {
    var ok := PassMask(contributors, cands);
    var r := RankMasked(ok, Intervals(cands));
    MaskMembership(contributors, cands, ok, r);
    r
  }

  lemma MaskMembership(contributors: seq<string>, cands: seq<Candidate>, ok: seq<bool>, r: seq<nat>)
    requires |ok| == |cands|
    requires forall i :: 0 <= i < |cands| ==> ok[i] == Passes(contributors, cands[i])
    requires forall i :: i in r <==> 0 <= i < |ok| && ok[i]
    ensures forall i :: i in r <==> 0 <= i < |cands| && Passes(contributors, cands[i])
  {
    forall i ensures i in r <==> 0 <= i < |cands| && Passes(contributors, cands[i]) {
      if 0 <= i < |cands| {
        assert ok[i] == Passes(contributors, cands[i]);
      }
    }
  }

  /** Each passing candidate is tried once, and never before a candidate
      released closer to the dataset. */
  lemma RankCandidatesOrdered(contributors: seq<string>, cands: seq<Candidate>)
    ensures var r := RankCandidates(contributors, cands);
            forall j, k :: 0 <= j < k < |r| ==> r[j] != r[k] && cands[r[j]].dayInterval <= cands[r[k]].dayInterval
  {
    var key := Intervals(cands);
    RankedDistinctAndOrdered(key, RankCandidates(contributors, cands));
  }

  lemma RankedDistinctAndOrdered(key: seq<nat>, r: seq<nat>)
    requires Ranked(key, r)
    ensures forall j, k :: 0 <= j < k < |r| ==> r[j] != r[k] && key[r[j]] <= key[r[k]]
  {
    forall j, k | 0 <= j < k < |r| ensures r[j] != r[k] && key[r[j]] <= key[r[k]] {
      assert Before(key, r[j], r[k]);
    }
  }

  /** The ranking is fully determined: two rankings of the same indices
      are equal, so ties are never broken arbitrarily. */
  lemma {:induction false} RankedUnique(key: seq<nat>, r1: seq<nat>, r2: seq<nat>)
    requires Ranked(key, r1) && Ranked(key, r2)
    requires forall x :: x in r1 <==> x in r2
    ensures r1 == r2
    decreases |r1|
  {
    if r1 != [] {
      assert r1[0] in r2;
    }
    if r2 != [] {
      assert r2[0] in r1;
    }
    if r1 != [] {
      var a, b := r1[0], r2[0];
      var ia :| 0 <= ia < |r2| && r2[ia] == a;
      var ib :| 0 <= ib < |r1| && r1[ib] == b;
      assert ia == 0 || Before(key, b, a);
      assert ib == 0 || Before(key, a, b);
      assert a == b;
      forall x ensures x in r1[1..] <==> x in r2[1..] {
        if x in r1[1..] {
          var j :| 1 <= j < |r1| && r1[j] == x;
          assert Before(key, r1[0], r1[j]);
          assert x in r2;
        }
        if x in r2[1..] {
          var j :| 1 <= j < |r2| && r2[j] == x;
          assert Before(key, r2[0], r2[j]);
          assert x in r1;
        }
      }
      RankedUnique(key, r1[1..], r2[1..]);
    }
  }

  /** `pmids` of scraping.py:194: the PMID of each candidate, in rank order. */
  function RankedCandidates(contributors: seq<string>, cands: seq<Candidate>): (r: seq<Candidate>)
    ensures |r| == |RankCandidates(contributors, cands)|
    ensures forall k :: 0 <= k < |r| ==> r[k] == cands[RankCandidates(contributors, cands)[k]]
    ensures forall k :: 0 <= k < |r| ==> Passes(contributors, r[k])
  {
    var idx := RankCandidates(contributors, cands);
    RankInRange(contributors, cands);
    seq(|idx|, k requires 0 <= k < |idx| => cands[idx[k]])
  }

  /** Every ranked position is a candidate that passes the author test. */
  lemma RankInRange(contributors: seq<string>, cands: seq<Candidate>)
    ensures var idx := RankCandidates(contributors, cands);
            forall k :: 0 <= k < |idx| ==> idx[k] < |cands| && Passes(contributors, cands[idx[k]])
  {
    var idx := RankCandidates(contributors, cands);
    forall k | 0 <= k < |idx| ensures idx[k] < |cands| && Passes(contributors, cands[idx[k]]) {
      assert idx[k] in idx;
    }
  }

  // ---------------------------------------------------------------------
  // Selection (Nspider.py:223-242)

  function FirstContaining(ranked: seq<Candidate>, token: string): (r: Option<nat>)
    ensures r.Some? ==> r.value < |ranked| && Contains(ranked[r.value].fullText, token)
                        && forall k :: 0 <= k < r.value ==> !Contains(ranked[k].fullText, token)
    ensures r.None? <==> forall k :: 0 <= k < |ranked| ==> !Contains(ranked[k].fullText, token)
  {
    if ranked == [] then None
    else if Contains(ranked[0].fullText, token) then Some(0)
    else match FirstContaining(ranked[1..], token)
      case None => None
      case Some(i) => Some(i + 1)
  }

  /** Python's `max(range(n), key=...)`: the first index of a maximum. */
  function FirstArgMax(s: seq<real>): (k: nat)
    requires |s| > 0
    ensures k < |s|
    ensures forall j :: 0 <= j < |s| ==> s[j] <= s[k]
    ensures forall j :: 0 <= j < k ==> s[j] < s[k]
  {
    if |s| == 1 then 0
    else
      var k := FirstArgMax(s[..|s| - 1]);
      assert forall j :: 0 <= j < |s| - 1 ==> s[..|s| - 1][j] == s[j];
      if s[|s| - 1] > s[k] then |s| - 1 else k
  }

  /** The similarity of every candidate's abstract to the dataset title. */
  function Similarities(title: string, ranked: seq<Candidate>): (r: seq<real>)
    requires exists i :: 0 <= i < |title| && !IsSpace(title[i])
    ensures |r| == |ranked|
    ensures forall k :: 0 <= k < |ranked| ==> Matching.Score(title, ranked[k].abstractText) == Success(r[k])
  {
    seq(|ranked|, k requires 0 <= k < |ranked| => Matching.Score(title, ranked[k].abstractText).value)
  }

  predicate Blank(s: string)
  {
    forall i :: 0 <= i < |s| ==> IsSpace(s[i])
  }

  /** The tail of `_search_relative_publication_with_gds`. The first ranked
      candidate whose full text contains the accession token wins with no
      score. Otherwise the first candidate of highest similarity wins with
      its score. With no candidates `max` of an empty range raises
      `ValueError`; a title without words makes the score raise
      `ZeroDivisionError`. A returned resolution is always `found`. */
  function Select(ranked: seq<Candidate>, accession: string, title: string): (r: Result<Resolution>)
    ensures r.Failure? <==>
              (forall k :: 0 <= k < |ranked| ==> !Contains(ranked[k].fullText, accession))
              && (ranked == [] || Blank(title))
    ensures r.Success? ==> r.value.found
    ensures (exists k :: 0 <= k < |ranked| && Contains(ranked[k].fullText, accession)) ==>
              r.Success? && r.value.score.None?
    ensures r.Success? && r.value.score.None? ==>
              exists i :: 0 <= i < |ranked| && r.value.pmid == PmidOf(ranked[i])
                && Contains(ranked[i].fullText, accession)
                && forall k :: 0 <= k < i ==> !Contains(ranked[k].fullText, accession)
    ensures r.Success? && r.value.score.Some? ==>
              exists i :: 0 <= i < |ranked| && r.value.pmid == PmidOf(ranked[i])
                && Matching.Score(title, ranked[i].abstractText) == Success(r.value.score.value)
                && (forall k :: 0 <= k < |ranked| ==> Matching.Score(title, ranked[k].abstractText).value <= r.value.score.value)
                && (forall k :: 0 <= k < i ==> Matching.Score(title, ranked[k].abstractText).value < r.value.score.value)
  {
    match FirstContaining(ranked, accession)
    case Some(i) => Success(Resolution(PmidOf(ranked[i]), None, true))
    case None =>
      if ranked == [] then Failure("ValueError")
      else if Blank(title) then
        assert Matching.Score(title, ranked[0].abstractText).Failure?;
        Failure("ZeroDivisionError")
      else
        var scores := Similarities(title, ranked);
        var i := FirstArgMax(scores);
        Success(Resolution(PmidOf(ranked[i]), Some(scores[i]), true))
  }

  /** `_search_relative_publication_with_gds` end to end, from the dataset's
      pages and the contributor search results. The search is keyed on the
      first contributor, so an empty contributor list raises `IndexError`.
      A resolution always names a candidate that passed the author test. */
  function Resolve(page: DatasetPage, cands: seq<Candidate>): (r: Result<Resolution>)
    ensures page.contributors == [] ==> r.Failure?
    ensures r.Success? ==> exists i :: 0 <= i < |cands| && Passes(page.contributors, cands[i])
                                       && r.value.pmid == PmidOf(cands[i])
    ensures page.contributors != [] && (forall i :: 0 <= i < |cands| ==> !Passes(page.contributors, cands[i])) ==>
              r == Failure("ValueError")
  {
    if page.contributors == [] then Failure("IndexError")
    else
      var ranked := RankedCandidates(page.contributors, cands);
      var r := Select(ranked, page.accession, page.title);
      ResolveWitness(page.contributors, cands, ranked, r);
      r
  }

  lemma ResolveWitness(contributors: seq<string>, cands: seq<Candidate>, ranked: seq<Candidate>, r: Result<Resolution>)
    requires ranked == RankedCandidates(contributors, cands)
    requires r.Success? ==> exists k :: 0 <= k < |ranked| && r.value.pmid == PmidOf(ranked[k])
    ensures r.Success? ==> exists i :: 0 <= i < |cands| && Passes(contributors, cands[i])
                                       && r.value.pmid == PmidOf(cands[i])
    ensures (forall i :: 0 <= i < |cands| ==> !Passes(contributors, cands[i])) ==> ranked == []
  {
    var idx := RankCandidates(contributors, cands);
    if r.Success? {
      var k :| 0 <= k < |ranked| && r.value.pmid == PmidOf(ranked[k]);
      assert idx[k] in idx;
      assert Passes(contributors, cands[idx[k]]);
    }
    if ranked != [] {
      assert idx[0] in idx;
    }
  }

  /** Full-text verification overrides similarity: whatever the abstracts
      score, a candidate whose text holds the token is chosen over every
      candidate ranked after it. */
  lemma FullTextWins(ranked: seq<Candidate>, accession: string, title: string, i: nat)
    requires i < |ranked| && Contains(ranked[i].fullText, accession)
    requires forall k :: 0 <= k < i ==> !Contains(ranked[k].fullText, accession)
    ensures Select(ranked, accession, title) == Success(Resolution(PmidOf(ranked[i]), None, true))
  {
    var f := FirstContaining(ranked, accession);
    assert f.Some?;
  }
}
