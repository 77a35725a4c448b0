/** The registry of `nspider` (Nspider.py:41-89, 311-327): three
    append-only tables, two key-set indexes, first-write-wins merging of
    new batches, and lookup of a stored paper by identifier.

    The merge filters at Nspider.py:74 and 86-87 compare the set of
    already-registered keys against a whole column, which pandas evaluates
    cell by cell against the set object, so that nothing is ever filtered.
    The members called `...AsWritten` keep that behaviour; the members
    without the suffix filter out the registered keys, which is what the
    index arithmetic next to them evidently intends, and are the ones the
    rest of the model uses. */
module Registry {
  import opened Wrappers
  import opened Tables
  import Identifiers
  import Policy

  datatype Registry = Registry(
    gds: seq<GdsRow>,
    gdsIndex: set<string>,
    publications: seq<PublicationRow>,
    publicationIndex: set<string>,
    sources: seq<SourceRow>)

  function GdsKeys(rows: seq<GdsRow>): (r: set<string>)
    ensures forall u :: u in r <==> exists k :: 0 <= k < |rows| && rows[k].gdsUid == u
  {
    set k | 0 <= k < |rows| :: rows[k].gdsUid
  }

  function PublicationKeys(rows: seq<PublicationRow>): (r: set<string>)
    ensures forall d :: d in r <==> exists k :: 0 <= k < |rows| && rows[k].doi == d
  {
    set k | 0 <= k < |rows| :: rows[k].doi
  }

  /** Each index is exactly the key set of its table, as the constructor
      establishes it when it loads the tables (Nspider.py:41-52). */
  predicate Consistent(reg: Registry)
  {
    reg.gdsIndex == GdsKeys(reg.gds) && reg.publicationIndex == PublicationKeys(reg.publications)
  }

  predicate GdsUnique(rows: seq<GdsRow>)
  {
    forall j, k :: 0 <= j < k < |rows| ==> rows[j].gdsUid != rows[k].gdsUid
  }

  predicate PublicationsUnique(rows: seq<PublicationRow>)
  {
    forall j, k :: 0 <= j < k < |rows| ==> rows[j].doi != rows[k].doi
  }

  /** No key occurs twice in either keyed table. */
  predicate Unique(reg: Registry)
  {
    GdsUnique(reg.gds) && PublicationsUnique(reg.publications)
  }

  /** The registry the constructor builds from the stored tables
      (Nspider.py:41-58); an absent file is an empty table. */
  function Open(gds: seq<GdsRow>, pubs: seq<PublicationRow>, srcs: seq<SourceRow>): (r: Registry)
    ensures Consistent(r)
    ensures r.gds == gds && r.publications == pubs && r.sources == srcs
  {
    Registry(gds, GdsKeys(gds), pubs, PublicationKeys(pubs), srcs)
  }

  // ---------------------------------------------------------------------
  // Order-preserving row filters: the rows whose key is not in `out`

  function FilterGds(rows: seq<GdsRow>, out: set<string>): (r: seq<GdsRow>)
    ensures forall x :: x in r <==> x in rows && x.gdsUid !in out
    ensures |r| <= |rows|
    ensures r == [] <==> forall x :: x in rows ==> x.gdsUid in out
  {
    var novel := (x: GdsRow) => x.gdsUid !in out;
    Policy.KeepEmptyIff(rows, novel);
    Policy.Keep(rows, novel)
  }

  function FilterPublications(rows: seq<PublicationRow>, out: set<string>): (r: seq<PublicationRow>)
    ensures forall x :: x in r <==> x in rows && x.doi !in out
    ensures |r| <= |rows|
    ensures r == [] <==> forall x :: x in rows ==> x.doi in out
  {
    var novel := (x: PublicationRow) => x.doi !in out;
    Policy.KeepEmptyIff(rows, novel);
    Policy.Keep(rows, novel)
  }

  function FilterSources(rows: seq<SourceRow>, out: set<string>): (r: seq<SourceRow>)
    ensures forall x :: x in r <==> x in rows && x.doi !in out
    ensures |r| <= |rows|
    ensures r == [] <==> forall x :: x in rows ==> x.doi in out
  {
    var novel := (x: SourceRow) => x.doi !in out;
    Policy.KeepEmptyIff(rows, novel);
    Policy.Keep(rows, novel)
  }

  lemma {:induction false} FilterGdsKeepsUnique(rows: seq<GdsRow>, out: set<string>)
    requires GdsUnique(rows)
    ensures GdsUnique(FilterGds(rows, out))
    decreases |rows|
  {
    if rows != [] {
      FilterGdsKeepsUnique(rows[1..], out);
      var rest := FilterGds(rows[1..], out);
      forall k | 0 <= k < |rest| ensures rest[k].gdsUid != rows[0].gdsUid {
        assert rest[k] in rest;
        var j :| 0 <= j < |rows[1..]| && rows[1..][j] == rest[k];
      }
    }
  }

  lemma {:induction false} FilterPublicationsKeepsUnique(rows: seq<PublicationRow>, out: set<string>)
    requires PublicationsUnique(rows)
    ensures PublicationsUnique(FilterPublications(rows, out))
    decreases |rows|
  {
    if rows != [] {
      FilterPublicationsKeepsUnique(rows[1..], out);
      var rest := FilterPublications(rows[1..], out);
      forall k | 0 <= k < |rest| ensures rest[k].doi != rows[0].doi {
        assert rest[k] in rest;
        var j :| 0 <= j < |rows[1..]| && rows[1..][j] == rest[k];
      }
    }
  }

  // ---------------------------------------------------------------------
  // `_register_dataset` (Nspider.py:67-76)

  /** The rows of the batch are appended unless their uid is already
      indexed; the index gains every uid of the batch. */
  function RegisterDataset(reg: Registry, batch: seq<GdsRow>): (r: Registry)
    ensures |reg.gds| <= |r.gds| && r.gds[..|reg.gds|] == reg.gds
    ensures forall x :: x in r.gds[|reg.gds|..] <==> x in batch && x.gdsUid !in reg.gdsIndex
    ensures r.gdsIndex == reg.gdsIndex + GdsKeys(batch)
    ensures r.publications == reg.publications && r.publicationIndex == reg.publicationIndex
    ensures r.sources == reg.sources
  {
    var added := FilterGds(batch, reg.gdsIndex);
    assert (reg.gds + added)[|reg.gds|..] == added;
    reg.(gds := reg.gds + added, gdsIndex := reg.gdsIndex + GdsKeys(batch))
  }

  /** The code as written: `gds_uid_registered != gds.gds_uid` is true in
      every cell, so the whole batch is appended. */
  function RegisterDatasetAsWritten(reg: Registry, batch: seq<GdsRow>): (r: Registry)
    ensures r.gds == reg.gds + batch
    ensures r.gdsIndex == reg.gdsIndex + GdsKeys(batch)
  {
    reg.(gds := reg.gds + batch, gdsIndex := reg.gdsIndex + GdsKeys(batch))
  }

  lemma RegisterDatasetConsistent(reg: Registry, batch: seq<GdsRow>)
    requires Consistent(reg)
    ensures Consistent(RegisterDataset(reg, batch))
  {
    var r := RegisterDataset(reg, batch);
    var added := FilterGds(batch, reg.gdsIndex);
    assert r.gds == r.gds[..|reg.gds|] + r.gds[|reg.gds|..];
    assert r.gds == reg.gds + added;
    GdsKeysAppend(reg.gds, added);
    NovelUids(batch, reg.gdsIndex);
  }

  lemma GdsKeysAppend(a: seq<GdsRow>, b: seq<GdsRow>)
    ensures GdsKeys(a + b) == GdsKeys(a) + GdsKeys(b)
  {
    forall u | u in GdsKeys(a) ensures u in GdsKeys(a + b) {
      var k :| 0 <= k < |a| && a[k].gdsUid == u;
      assert (a + b)[k] == a[k];
    }
    forall u | u in GdsKeys(b) ensures u in GdsKeys(a + b) {
      var k :| 0 <= k < |b| && b[k].gdsUid == u;
      assert (a + b)[|a| + k] == b[k];
    }
    forall u | u in GdsKeys(a + b) ensures u in GdsKeys(a) + GdsKeys(b) {
      var k :| 0 <= k < |a + b| && (a + b)[k].gdsUid == u;
      if k >= |a| {
        assert (a + b)[k] == b[k - |a|];
      }
    }
  }

  /** Filtering out the registered uids removes exactly those keys. */
  lemma NovelUids(rows: seq<GdsRow>, out: set<string>)
    ensures GdsKeys(FilterGds(rows, out)) == GdsKeys(rows) - out
  {
    var novel := FilterGds(rows, out);
    forall u | u in GdsKeys(rows) - out ensures u in GdsKeys(novel) {
      var k :| 0 <= k < |rows| && rows[k].gdsUid == u;
      assert rows[k] in novel;
      var j :| 0 <= j < |novel| && novel[j] == rows[k];
    }
    forall u | u in GdsKeys(novel) ensures u in GdsKeys(rows) - out {
      var j :| 0 <= j < |novel| && novel[j].gdsUid == u;
      assert novel[j] in rows;
      var k :| 0 <= k < |rows| && rows[k] == novel[j];
    }
  }

  /** A registry without duplicate uids stays so, given a batch without
      duplicate uids (the code does not check the batch itself). */
  lemma RegisterDatasetUnique(reg: Registry, batch: seq<GdsRow>)
    requires Consistent(reg) && GdsUnique(reg.gds) && GdsUnique(batch)
    ensures GdsUnique(RegisterDataset(reg, batch).gds)
  {
    var added := FilterGds(batch, reg.gdsIndex);
    FilterGdsKeepsUnique(batch, reg.gdsIndex);
    var all := reg.gds + added;
    forall j, k | 0 <= j < k < |all| ensures all[j].gdsUid != all[k].gdsUid {
      if j < |reg.gds| && k >= |reg.gds| {
        assert all[k] == added[k - |reg.gds|];
        assert added[k - |reg.gds|] in added;
        assert all[j].gdsUid in reg.gdsIndex;
      } else if j >= |reg.gds| {
        assert all[j] == added[j - |reg.gds|] && all[k] == added[k - |reg.gds|];
      }
    }
  }

  /** Registering the same batch twice is the same as registering it once. */
  lemma RegisterDatasetIdempotent(reg: Registry, batch: seq<GdsRow>)
    ensures RegisterDataset(RegisterDataset(reg, batch), batch) == RegisterDataset(reg, batch)
  {
    var r := RegisterDataset(reg, batch);
    forall x | x in batch ensures x.gdsUid in r.gdsIndex {
      var k :| 0 <= k < |batch| && batch[k] == x;
    }
    assert FilterGds(batch, r.gdsIndex) == [];
    assert r.gds + [] == r.gds;
  }

  /** As written, registering a uid that is already indexed adds a second
      row for it. */
  lemma RegisterDatasetAsWrittenDuplicates()
    ensures var reg := Open([GdsRow("200001", Some("10.1_slash1"))], [], []);
            !GdsUnique(RegisterDatasetAsWritten(reg, [GdsRow("200001", None)]).gds)
  {
    var reg := Open([GdsRow("200001", Some("10.1_slash1"))], [], []);
    var r := RegisterDatasetAsWritten(reg, [GdsRow("200001", None)]);
    assert r.gds[0].gdsUid == r.gds[1].gdsUid;
  }

  // ---------------------------------------------------------------------
  // `_register_publication` (Nspider.py:79-123)

  /** The registry after the merge, and the download attempts made. */
  datatype Registered = Registered(registry: Registry, attempts: seq<Policy.Try>)

  /** Publications whose DOI is already indexed are dropped together with
      their sources; the rest go through the download passes and are
      appended, each with its status set; the index gains every DOI of the
      batch. Nothing already stored changes. */
  function RegisterPublication(reg: Registry, pubs: seq<PublicationRow>, srcs: seq<SourceRow>,
                               attempt: Policy.Attempt): (r: Registered)
    ensures |reg.publications| <= |r.registry.publications|
    ensures r.registry.publications[..|reg.publications|] == reg.publications
    ensures |reg.sources| <= |r.registry.sources|
    ensures r.registry.sources[..|reg.sources|] == reg.sources
    ensures r.registry.publications[|reg.publications|..] ==
              Policy.Downloads(FilterPublications(pubs, reg.publicationIndex),
                               FilterSources(srcs, reg.publicationIndex), attempt).value.0
    ensures forall x :: x in r.registry.sources[|reg.sources|..] <==> x in srcs && x.doi !in reg.publicationIndex
    ensures r.registry.publicationIndex == reg.publicationIndex + PublicationKeys(pubs)
    ensures r.registry.gds == reg.gds && r.registry.gdsIndex == reg.gdsIndex
  {
    var novel := FilterPublications(pubs, reg.publicationIndex);
    var novelSrcs := FilterSources(srcs, reg.publicationIndex);
    var done := Policy.Downloads(novel, novelSrcs, attempt).value;
    assert (reg.publications + done.0)[|reg.publications|..] == done.0;
    assert (reg.sources + novelSrcs)[|reg.sources|..] == novelSrcs;
    Registered(reg.(publications := reg.publications + done.0,
                    publicationIndex := reg.publicationIndex + PublicationKeys(pubs),
                    sources := reg.sources + novelSrcs),
               done.1)
  }

  /** The code as written: nothing is filtered, so a DOI that is already
      registered is stored again and its links are tried again. */
  function RegisterPublicationAsWritten(reg: Registry, pubs: seq<PublicationRow>, srcs: seq<SourceRow>,
                                        attempt: Policy.Attempt): (r: Registered)
    ensures r.registry.publications == reg.publications + Policy.Downloads(pubs, srcs, attempt).value.0
    ensures r.registry.sources == reg.sources + srcs
    ensures r.attempts == Policy.Downloads(pubs, srcs, attempt).value.1
    ensures r.registry.publicationIndex == reg.publicationIndex + PublicationKeys(pubs)
  {
    var done := Policy.Downloads(pubs, srcs, attempt).value;
    Registered(reg.(publications := reg.publications + done.0,
                    publicationIndex := reg.publicationIndex + PublicationKeys(pubs),
                    sources := reg.sources + srcs),
               done.1)
  }

  lemma DownloadsKeepDois(pubs: seq<PublicationRow>, srcs: seq<SourceRow>, attempt: Policy.Attempt)
    ensures |Policy.Downloads(pubs, srcs, attempt).value.0| == |pubs|
    ensures forall i :: 0 <= i < |pubs| ==> Policy.Downloads(pubs, srcs, attempt).value.0[i].doi == pubs[i].doi
  {
    Policy.DownloadsStatus(pubs, srcs, attempt);
  }

  lemma PublicationKeysAppend(a: seq<PublicationRow>, b: seq<PublicationRow>)
    ensures PublicationKeys(a + b) == PublicationKeys(a) + PublicationKeys(b)
  {
    forall d | d in PublicationKeys(a) ensures d in PublicationKeys(a + b) {
      var k :| 0 <= k < |a| && a[k].doi == d;
      assert (a + b)[k] == a[k];
    }
    forall d | d in PublicationKeys(b) ensures d in PublicationKeys(a + b) {
      var k :| 0 <= k < |b| && b[k].doi == d;
      assert (a + b)[|a| + k] == b[k];
    }
    forall d | d in PublicationKeys(a + b) ensures d in PublicationKeys(a) + PublicationKeys(b) {
      var k :| 0 <= k < |a + b| && (a + b)[k].doi == d;
      if k >= |a| {
        assert (a + b)[k] == b[k - |a|];
      }
    }
  }

  lemma PublicationKeysSameDois(a: seq<PublicationRow>, b: seq<PublicationRow>)
    requires |a| == |b| && forall i :: 0 <= i < |a| ==> a[i].doi == b[i].doi
    ensures PublicationKeys(a) == PublicationKeys(b)
  {
  }

  lemma RegisterPublicationConsistent(reg: Registry, pubs: seq<PublicationRow>, srcs: seq<SourceRow>,
                                      attempt: Policy.Attempt)
    requires Consistent(reg)
    ensures Consistent(RegisterPublication(reg, pubs, srcs, attempt).registry)
  {
    var novel := FilterPublications(pubs, reg.publicationIndex);
    var novelSrcs := FilterSources(srcs, reg.publicationIndex);
    var done := Policy.Downloads(novel, novelSrcs, attempt).value.0;
    var r := RegisterPublication(reg, pubs, srcs, attempt).registry;
    assert r.publications == r.publications[..|reg.publications|] + r.publications[|reg.publications|..];
    assert r.publications == reg.publications + done;
    DownloadsKeepDois(novel, novelSrcs, attempt);
    PublicationKeysSameDois(done, novel);
    PublicationKeysAppend(reg.publications, done);
    NovelKeys(pubs, reg.publicationIndex);
  }

  /** Filtering out the registered DOIs removes exactly those keys. */
  lemma NovelKeys(pubs: seq<PublicationRow>, out: set<string>)
    ensures PublicationKeys(FilterPublications(pubs, out)) == PublicationKeys(pubs) - out
  {
    var novel := FilterPublications(pubs, out);
    forall d | d in PublicationKeys(pubs) - out ensures d in PublicationKeys(novel) {
      var k :| 0 <= k < |pubs| && pubs[k].doi == d;
      assert pubs[k] in novel;
      var j :| 0 <= j < |novel| && novel[j] == pubs[k];
    }
    forall d | d in PublicationKeys(novel) ensures d in PublicationKeys(pubs) - out {
      var j :| 0 <= j < |novel| && novel[j].doi == d;
      assert novel[j] in pubs;
      var k :| 0 <= k < |pubs| && pubs[k] == novel[j];
    }
  }

  lemma RegisterPublicationUnique(reg: Registry, pubs: seq<PublicationRow>, srcs: seq<SourceRow>,
                                  attempt: Policy.Attempt)
    requires Consistent(reg) && PublicationsUnique(reg.publications) && PublicationsUnique(pubs)
    ensures PublicationsUnique(RegisterPublication(reg, pubs, srcs, attempt).registry.publications)
  {
    var novel := FilterPublications(pubs, reg.publicationIndex);
    var novelSrcs := FilterSources(srcs, reg.publicationIndex);
    var done := Policy.Downloads(novel, novelSrcs, attempt).value.0;
    DownloadsKeepDois(novel, novelSrcs, attempt);
    FilterPublicationsKeepsUnique(pubs, reg.publicationIndex);
    var all := reg.publications + done;
    assert RegisterPublication(reg, pubs, srcs, attempt).registry.publications == all;
    forall j, k | 0 <= j < k < |all| ensures all[j].doi != all[k].doi {
      if j < |reg.publications| && k >= |reg.publications| {
        var m := k - |reg.publications|;
        assert all[k].doi == novel[m].doi;
        assert novel[m] in novel;
        assert all[j].doi in reg.publicationIndex;
      } else if j >= |reg.publications| {
        assert all[j].doi == novel[j - |reg.publications|].doi;
        assert all[k].doi == novel[k - |reg.publications|].doi;
      }
    }
  }

  /** A batch whose publications and sources are all of registered DOIs
      changes nothing and tries no link; in particular, registering a
      batch a second time adds nothing when its sources are all of its own
      publications. */
  lemma RegisterPublicationAgain(reg: Registry, pubs: seq<PublicationRow>, srcs: seq<SourceRow>,
                                 attempt: Policy.Attempt)
    requires PublicationKeys(pubs) <= reg.publicationIndex
    requires forall s :: s in srcs ==> s.doi in reg.publicationIndex
    ensures RegisterPublication(reg, pubs, srcs, attempt) == Registered(reg, [])
  {
    forall x | x in pubs ensures x.doi in reg.publicationIndex {
      var k :| 0 <= k < |pubs| && pubs[k] == x;
    }
    assert FilterPublications(pubs, reg.publicationIndex) == [];
    assert FilterSources(srcs, reg.publicationIndex) == [];
    var done := Policy.Downloads([], [], attempt).value;
    assert done.0 == [] && done.1 == [];
    var r := RegisterPublication(reg, pubs, srcs, attempt);
    assert r.registry.publications == reg.publications + [];
    assert r.registry.sources == reg.sources + [];
    assert reg.publicationIndex + PublicationKeys(pubs) == reg.publicationIndex;
  }

  /** The DOIs of the batch that were not registered before and are free
      PMC. */
  function NovelFreeDois(reg: Registry, pubs: seq<PublicationRow>): (r: set<string>)
    ensures forall d :: d in r <==> exists p :: p in pubs && p.isFreePmc && p.doi == d && d !in reg.publicationIndex
  {
    set p | p in pubs && p.isFreePmc && p.doi !in reg.publicationIndex :: p.doi
  }

  /** Every link tried is a source of the batch belonging to a publication
      that was not registered before and is free PMC. */
  lemma AttemptsOnlyNovelFree(reg: Registry, pubs: seq<PublicationRow>, srcs: seq<SourceRow>,
                              attempt: Policy.Attempt)
    ensures forall k :: 0 <= k < |RegisterPublication(reg, pubs, srcs, attempt).attempts| ==>
              Policy.Offered(RegisterPublication(reg, pubs, srcs, attempt).attempts[k], srcs)
              && RegisterPublication(reg, pubs, srcs, attempt).attempts[k].doi in NovelFreeDois(reg, pubs)
  {
    var novel := FilterPublications(pubs, reg.publicationIndex);
    var novelSrcs := FilterSources(srcs, reg.publicationIndex);
    Policy.OnlyFreeLinksTried(novel, novelSrcs, attempt);
    var log := RegisterPublication(reg, pubs, srcs, attempt).attempts;
    assert log == Policy.Downloads(novel, novelSrcs, attempt).value.1;
    forall k | 0 <= k < |log|
      ensures Policy.Offered(log[k], srcs) && log[k].doi in NovelFreeDois(reg, pubs)
    {
      NovelFreeAttempt(reg, pubs, srcs, novel, novelSrcs, log[k]);
    }
  }

  lemma NovelFreeAttempt(reg: Registry, pubs: seq<PublicationRow>, srcs: seq<SourceRow>,
                         novel: seq<PublicationRow>, novelSrcs: seq<SourceRow>, t: Policy.Try)
    requires novel == FilterPublications(pubs, reg.publicationIndex)
    requires novelSrcs == FilterSources(srcs, reg.publicationIndex)
    requires Policy.Offered(t, Policy.FreeLinks(novel, novelSrcs))
    ensures Policy.Offered(t, srcs) && t.doi in NovelFreeDois(reg, pubs)
  {
    var s :| s in Policy.FreeLinks(novel, novelSrcs) && Policy.TryOf(s) == t;
    assert s in novelSrcs && s.doi in Policy.FreeDois(novel);
    var i :| 0 <= i < |novel| && novel[i].isFreePmc && novel[i].doi == s.doi;
    assert novel[i] in novel;
  }

  /** As written, registering a publication that is already stored adds a
      second row for its DOI. */
  lemma RegisterPublicationAsWrittenDuplicates(row: PublicationRow, attempt: Policy.Attempt)
    ensures var reg := Open([], [row], []);
            !PublicationsUnique(RegisterPublicationAsWritten(reg, [row], [], attempt).registry.publications)
  {
    var reg := Open([], [row], []);
    Policy.DownloadsStatus([row], [], attempt);
    var r := RegisterPublicationAsWritten(reg, [row], [], attempt).registry;
    assert r.publications[0].doi == r.publications[1].doi;
  }

  // ---------------------------------------------------------------------
  // `load_publication` (Nspider.py:311-333)

  function RowsWithDoi(rows: seq<PublicationRow>, doi: string): (r: seq<PublicationRow>)
    ensures forall x :: x in r <==> x in rows && x.doi == doi
    ensures r == [] <==> forall x :: x in rows ==> x.doi != doi
  {
    var matches := (x: PublicationRow) => x.doi == doi;
    Policy.KeepEmptyIff(rows, matches);
    Policy.Keep(rows, matches)
  }

  function RowsWithPmid(rows: seq<PublicationRow>, pmid: string): (r: seq<PublicationRow>)
    ensures forall x :: x in r <==> x in rows && x.pmid == pmid
  {
    Policy.Keep(rows, (x: PublicationRow) => x.pmid == pmid)
  }

  /** The stored paper of a publication: the name of its file in the
      download directory when its download succeeded, `None` otherwise.
      The identifier is classified first (`AttributeError` for neither
      kind); the matching rows are looked up by the column of its kind,
      with the identifier as given. `squeeze` of anything but exactly one
      row leaves a Series, whose truth value raises `ValueError`. */
  function LoadPublication(reg: Registry, identifier: string): (r: Result<Option<string>>)
    ensures Identifiers.Classify(identifier).Failure? ==> r == Failure("AttributeError")
    ensures r.Success? ==>
              exists row :: row in reg.publications
                && (if Identifiers.Classify(identifier) == Success(Identifiers.DoiId)
                    then row.doi == identifier else row.pmid == identifier)
                && (r.value.Some? <==> row.download == Succeeded)
                && (r.value.Some? ==> r.value.value == Identifiers.CanonicalFileName(row.doi))
  {
    match Identifiers.Classify(identifier)
    case Failure(e) => Failure(e)
    case Success(kind) =>
      var entry := if kind == Identifiers.DoiId then RowsWithDoi(reg.publications, identifier)
                   else RowsWithPmid(reg.publications, identifier);
      if |entry| != 1 then Failure("ValueError")
      else
        assert entry[0] in entry;
        if entry[0].download == Succeeded then Success(Some(Identifiers.CanonicalFileName(entry[0].doi)))
        else Success(None)
  }

  lemma {:induction false} RowsWithDoiSingle(rows: seq<PublicationRow>, i: nat)
    requires i < |rows| && PublicationsUnique(rows)
    ensures RowsWithDoi(rows, rows[i].doi) == [rows[i]]
    decreases |rows|
  {
    if i == 0 {
      forall x | x in rows[1..] ensures x.doi != rows[0].doi {
        var j :| 0 <= j < |rows[1..]| && rows[1..][j] == x;
        assert rows[j + 1] == x;
      }
      assert RowsWithDoi(rows[1..], rows[0].doi) == [];
    } else {
      RowsWithDoiSingle(rows[1..], i - 1);
      assert rows[1..][i - 1] == rows[i];
    }
  }

  /** In a registry without duplicate DOIs, a stored publication is found
      by its DOI, and its file name is the one the download step renames a
      successful download to. */
  lemma LoadStoredPublication(reg: Registry, i: nat)
    requires Unique(reg) && i < |reg.publications|
    requires Identifiers.Classify(reg.publications[i].doi) == Success(Identifiers.DoiId)
    ensures LoadPublication(reg, reg.publications[i].doi) ==
              Success(if reg.publications[i].download == Succeeded
                      then Some(Identifiers.CanonicalFileName(reg.publications[i].doi)) else None)
  {
    RowsWithDoiSingle(reg.publications, i);
  }
}
