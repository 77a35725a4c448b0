/** Binding datasets to publications (Nspider.py:183-307): look every
    dataset uid up for a cross-referenced publication, send the uids that
    found none through the resolver, and register one gds row per bound
    or resolved uid at the end.

    The scraper, the resolver and the download attempts are oracles: `Env`
    gives, for a uid or a PMID, the rows the detail scraper would return,
    and, for a uid, what `_search_relative_publication_with_gds` returns.
    `ResolvedBy` ties the latter to the resolver of the `Resolver` module
    run on each dataset's page and contributor-search candidates. */
module Binding {
  import opened Wrappers
  import opened Tables
  import Policy
  import Resolver
  import Registry

  /** The rows `_get_publication_detail` returns: a publication list and a
      source list. */
  datatype Found = Found(pubs: seq<PublicationRow>, srcs: seq<SourceRow>)

  datatype Env = Env(
    scrapeByUid: string -> Found,
    scrapeByPmid: string -> Found,
    resolve: string -> Result<Resolver.Resolution>,
    attempt: Policy.Attempt)

  /** The registry after a lookup, and what the lookup returned. */
  datatype Lookup = Lookup(registry: Registry.Registry, found: Found)

  function GdsRowsOf(rows: seq<GdsRow>, uid: string): (r: seq<GdsRow>)
    ensures forall x :: x in r <==> x in rows && x.gdsUid == uid
  {
    Policy.Keep(rows, (x: GdsRow) => x.gdsUid == uid)
  }

  function SourcesWithDoi(rows: seq<SourceRow>, doi: string): (r: seq<SourceRow>)
    ensures forall x :: x in r <==> x in rows && x.doi == doi
  {
    Policy.Keep(rows, (x: SourceRow) => x.doi == doi)
  }

  predicate HasPmid(reg: Registry.Registry, pmid: string)
  {
    exists k :: 0 <= k < |reg.publications| && reg.publications[k].pmid == pmid
  }

  /** `_get_publication_detail(search_pubmed_by, param)`, the scraper's
      answer given as `scraped`:
      - a uid already indexed is answered from the stored tables through
        its gds row: no row for its DOI raises `UnboundLocalError`, and
        anything but exactly one gds row makes the `squeeze` comparison
        raise `ValueError`;
      - a PMID already stored is answered from the stored tables; more than
        one stored row for it makes the `squeeze` comparison raise;
      - otherwise the scraped rows are returned, and registered first when
        there is a publication among them. */
  function Detail(reg: Registry.Registry, param: string, scraped: Found, attempt: Policy.Attempt): (r: Result<Lookup>)
    ensures r.Success? ==> r.value.registry.gds == reg.gds && r.value.registry.gdsIndex == reg.gdsIndex
    ensures param in reg.gdsIndex ==>
              (r.Success? <==> |GdsRowsOf(reg.gds, param)| == 1 && GdsRowsOf(reg.gds, param)[0].doi.Some?)
    ensures param in reg.gdsIndex && r.Success? ==>
              && r.value.registry == reg
              && forall x :: x in r.value.found.pubs <==> x in reg.publications && Some(x.doi) == GdsRowsOf(reg.gds, param)[0].doi
    ensures param !in reg.gdsIndex && HasPmid(reg, param) ==>
              (r.Success? <==> |Registry.RowsWithPmid(reg.publications, param)| == 1)
    ensures param !in reg.gdsIndex && HasPmid(reg, param) && r.Success? ==>
              r.value.registry == reg && r.value.found.pubs == Registry.RowsWithPmid(reg.publications, param)
    ensures param !in reg.gdsIndex && !HasPmid(reg, param) ==>
              && r.Success? && r.value.found == scraped
              && r.value.registry == (if scraped.pubs == [] then reg
                                      else Registry.RegisterPublication(reg, scraped.pubs, scraped.srcs, attempt).registry)
  {
    if param in reg.gdsIndex then
      var rows := GdsRowsOf(reg.gds, param);
      if |rows| != 1 then Failure("ValueError")
      else match rows[0].doi
        case None => Failure("UnboundLocalError")
        case Some(doi) =>
          Success(Lookup(reg, Found(Registry.RowsWithDoi(reg.publications, doi), SourcesWithDoi(reg.sources, doi))))
    else if HasPmid(reg, param) then
      var pubs := Registry.RowsWithPmid(reg.publications, param);
      if |pubs| != 1 then Failure("ValueError")
      else Success(Lookup(reg, Found(pubs, SourcesWithDoi(reg.sources, pubs[0].doi))))
    else if scraped.pubs == [] then Success(Lookup(reg, scraped))
    else Success(Lookup(Registry.RegisterPublication(reg, scraped.pubs, scraped.srcs, attempt).registry, scraped))
  }

  /** `_publication[0][0]`: the DOI of the first publication returned, or
      `None` when there is none. */
  function FirstDoi(f: Found): (r: Option<string>)
    ensures r.None? <==> f.pubs == []
    ensures r.Some? ==> r.value == f.pubs[0].doi
  {
    if f.pubs == [] then None else Some(f.pubs[0].doi)
  }

  // ---------------------------------------------------------------------
  // The first loop (Nspider.py:252-269)

  datatype Lookups = Lookups(registry: Registry.Registry, found: seq<Found>)

  /** One lookup per uid, in order, each on the registry the previous one
      left; an exception ends the binding. */
  function LookUpAll(reg: Registry.Registry, uids: seq<string>, env: Env): (r: Result<Lookups>)
    ensures r.Success? ==> |r.value.found| == |uids|
    ensures r.Success? ==> r.value.registry.gds == reg.gds && r.value.registry.gdsIndex == reg.gdsIndex
    decreases |uids|
  {
    if uids == [] then Success(Lookups(reg, []))
    else match Detail(reg, uids[0], env.scrapeByUid(uids[0]), env.attempt)
      case Failure(e) => Failure(e)
      case Success(l) =>
        match LookUpAll(l.registry, uids[1..], env)
        case Failure(e) => Failure(e)
        case Success(rest) => Success(Lookups(rest.registry, [l.found] + rest.found))
  }

  /** Reference definition of the rows of the bound uids: for each uid
      whose lookup returned a publication, in order, the uid with the DOI
      of the first publication. */
  function BoundRows(uids: seq<string>, found: seq<Found>): (r: seq<GdsRow>)
    requires |uids| == |found|
  {
    if uids == [] then []
    else (if found[0].pubs == [] then [] else [GdsRow(uids[0], FirstDoi(found[0]))]) + BoundRows(uids[1..], found[1..])
  }

  /** The uids whose lookup returned no publication, in order. */
  function Unbound(uids: seq<string>, found: seq<Found>): (r: seq<string>)
    requires |uids| == |found|
    ensures forall u :: u in r <==> exists i :: 0 <= i < |uids| && uids[i] == u && found[i].pubs == []
  {
    if uids == [] then []
    else
      var rest := Unbound(uids[1..], found[1..]);
      assert forall i :: 1 <= i < |uids| ==> uids[i] == uids[1..][i - 1] && found[i] == found[1..][i - 1];
      (if found[0].pubs == [] then [uids[0]] else []) + rest
  }

  /** A row of the bound part is exactly a uid whose lookup returned a
      publication, paired with the DOI of the first one. */
  lemma {:induction false} BoundRowsIff(uids: seq<string>, found: seq<Found>, x: GdsRow)
    requires |uids| == |found|
    ensures x in BoundRows(uids, found) <==>
              exists i :: 0 <= i < |uids| && found[i].pubs != [] && x == GdsRow(uids[i], Some(found[i].pubs[0].doi))
    decreases |uids|
  {
    if uids != [] {
      BoundRowsIff(uids[1..], found[1..], x);
      if x in BoundRows(uids[1..], found[1..]) {
        var i :| 0 <= i < |uids[1..]| && found[1..][i].pubs != [] && x == GdsRow(uids[1..][i], Some(found[1..][i].pubs[0].doi));
        assert found[i + 1] == found[1..][i] && uids[i + 1] == uids[1..][i];
      }
      if exists i :: 0 <= i < |uids| && found[i].pubs != [] && x == GdsRow(uids[i], Some(found[i].pubs[0].doi)) {
        var i :| 0 <= i < |uids| && found[i].pubs != [] && x == GdsRow(uids[i], Some(found[i].pubs[0].doi));
        if i > 0 {
          assert found[1..][i - 1] == found[i] && uids[1..][i - 1] == uids[i];
        }
      }
    }
  }

  // ---------------------------------------------------------------------
  // The second loop (Nspider.py:278-300)

  datatype Resolved = Resolved(registry: Registry.Registry, rows: seq<GdsRow>)

  /** The resolver oracle answers for every uid what the resolver model
      answers on that dataset's page and candidates. */
  ghost predicate ResolvedBy(env: Env, dataset: string -> (Resolver.DatasetPage, seq<Resolver.Candidate>))
  {
    forall uid :: env.resolve(uid) == Resolver.Resolve(dataset(uid).0, dataset(uid).1)
  }

  /** The resolver's answer for each unbound uid. The resolver reads only
      its oracles, so asking it for every uid up front and consuming the
      answers in order is the loop of Nspider.py:278-300. */
  function ResolverAnswers(env: Env, unbound: seq<string>): (r: seq<Result<Resolver.Resolution>>)
    ensures |r| == |unbound| && forall k :: 0 <= k < |unbound| ==> r[k] == env.resolve(unbound[k])
  {
    seq(|unbound|, k requires 0 <= k < |unbound| => env.resolve(unbound[k]))
  }

  /** Each unbound uid, in order, takes the resolver's answer; its
      publication is then looked up by PMID and the uid is paired with
      that lookup's first DOI, which is `None` when the lookup returned no
      publication. A resolver or lookup that raises ends the binding. */
  function ResolveAll(reg: Registry.Registry, unbound: seq<string>, answers: seq<Result<Resolver.Resolution>>, env: Env)
    : (r: Result<Resolved>)
    requires |answers| == |unbound|
    ensures r.Success? ==> |r.value.rows| == |unbound|
    ensures r.Success? ==> forall k :: 0 <= k < |unbound| ==>
              r.value.rows[k].gdsUid == unbound[k] && answers[k].Success?
    ensures r.Success? ==> r.value.registry.gds == reg.gds && r.value.registry.gdsIndex == reg.gdsIndex
    decreases |unbound|
  {
    if unbound == [] then Success(Resolved(reg, []))
    else
      var uid := unbound[0];
      match answers[0]
      case Failure(e) => Failure(e)
      case Success(res) =>
        match Detail(reg, res.pmid, env.scrapeByPmid(res.pmid), env.attempt)
        case Failure(e) => Failure(e)
        case Success(l) =>
          match ResolveAll(l.registry, unbound[1..], answers[1..], env)
          case Failure(e) => Failure(e)
          case Success(rest) =>
            var rows := [GdsRow(uid, FirstDoi(l.found))] + rest.rows;
            assert forall k :: 1 <= k < |unbound| ==>
              unbound[k] == unbound[1..][k - 1] && answers[k] == answers[1..][k - 1] && rows[k] == rest.rows[k - 1];
            Success(Resolved(rest.registry, rows))
  }

  /** A binding gets through its second loop only if the resolver returns
      a publication for every unbound uid: one uid the resolver fails on,
      an empty contributor list for instance, fails the binding. */
  lemma ResolveAllNeedsResolver(reg: Registry.Registry, unbound: seq<string>, env: Env,
                                dataset: string -> (Resolver.DatasetPage, seq<Resolver.Candidate>))
    requires ResolvedBy(env, dataset)
    ensures ResolveAll(reg, unbound, ResolverAnswers(env, unbound), env).Success? ==>
              forall k :: 0 <= k < |unbound| ==> Resolver.Resolve(dataset(unbound[k]).0, dataset(unbound[k]).1).Success?
    ensures (exists k :: 0 <= k < |unbound| && dataset(unbound[k]).0.contributors == []) ==>
              ResolveAll(reg, unbound, ResolverAnswers(env, unbound), env).Failure?
  {
    var answers := ResolverAnswers(env, unbound);
    forall k | 0 <= k < |unbound|
      ensures answers[k] == Resolver.Resolve(dataset(unbound[k]).0, dataset(unbound[k]).1)
    {
    }
  }

  // ---------------------------------------------------------------------
  // `_register_publication_by_gds_uid` (Nspider.py:245-307)

  /** `rows` is the bound rows followed by one row per unbound uid, in
      order. */
  predicate IsBatchOf(uids: seq<string>, found: seq<Found>, rows: seq<GdsRow>)
    requires |uids| == |found|
  {
    var bound := BoundRows(uids, found);
    var unbound := Unbound(uids, found);
    && |rows| == |bound| + |unbound|
    && rows[..|bound|] == bound
    && forall k :: 0 <= k < |unbound| ==> rows[|bound| + k].gdsUid == unbound[k]
  }

  /** Both loops: the registry they leave and the gds rows they collect. */
  function CollectRows(reg: Registry.Registry, uids: seq<string>, env: Env): (r: Result<Resolved>)
    ensures r.Success? ==> LookUpAll(reg, uids, env).Success?
    ensures r.Success? ==> IsBatchOf(uids, LookUpAll(reg, uids, env).value.found, r.value.rows)
    ensures r.Success? ==> r.value.registry.gds == reg.gds && r.value.registry.gdsIndex == reg.gdsIndex
  {
    match LookUpAll(reg, uids, env)
    case Failure(e) => Failure(e)
    case Success(ls) =>
      var bound := BoundRows(uids, ls.found);
      var unbound := Unbound(uids, ls.found);
      match ResolveAll(ls.registry, unbound, ResolverAnswers(env, unbound), env)
      case Failure(e) => Failure(e)
      case Success(rs) =>
        var rows := bound + rs.rows;
        assert rows[..|bound|] == bound;
        assert forall k :: 0 <= k < |rs.rows| ==> rows[|bound| + k] == rs.rows[k];
        Success(Resolved(rs.registry, rows))
  }

  /** The registry afterwards and the gds rows registered at the end. */
  datatype Bound = Bound(registry: Registry.Registry, batch: seq<GdsRow>)

  /** `_register_publication_by_gds_uid`: the collected rows are
      registered once, at the end, and they are the only change to the gds
      table. */
  function BindByUids(reg: Registry.Registry, uids: seq<string>, env: Env): (r: Result<Bound>)
    ensures r.Success? <==> CollectRows(reg, uids, env).Success?
    ensures r.Success? ==> r.value.batch == CollectRows(reg, uids, env).value.rows
    ensures r.Success? ==> |reg.gds| <= |r.value.registry.gds| && r.value.registry.gds[..|reg.gds|] == reg.gds
    ensures r.Success? ==> forall x :: x in r.value.registry.gds[|reg.gds|..] <==> x in r.value.batch && x.gdsUid !in reg.gdsIndex
    ensures r.Success? ==> r.value.registry.gdsIndex == reg.gdsIndex + Registry.GdsKeys(r.value.batch)
  {
    match CollectRows(reg, uids, env)
    case Failure(e) => Failure(e)
    case Success(c) => Success(Bound(Registry.RegisterDataset(c.registry, c.rows), c.rows))
  }

  /** Every registered row names a uid of the call; a uid whose lookup
      found a publication is bound to the DOI of the first one. */
  lemma BatchRowsFromUids(reg: Registry.Registry, uids: seq<string>, env: Env)
    requires BindByUids(reg, uids, env).Success?
    ensures var found := LookUpAll(reg, uids, env).value.found;
            forall i :: 0 <= i < |uids| && found[i].pubs != [] ==>
              GdsRow(uids[i], Some(found[i].pubs[0].doi)) in BindByUids(reg, uids, env).value.batch
    ensures forall k :: 0 <= k < |BindByUids(reg, uids, env).value.batch| ==>
              BindByUids(reg, uids, env).value.batch[k].gdsUid in uids
  {
    BatchRows(uids, LookUpAll(reg, uids, env).value.found, BindByUids(reg, uids, env).value.batch);
  }

  lemma BatchRows(uids: seq<string>, found: seq<Found>, batch: seq<GdsRow>)
    requires |uids| == |found| && IsBatchOf(uids, found, batch)
    ensures forall i :: 0 <= i < |uids| && found[i].pubs != [] ==> GdsRow(uids[i], Some(found[i].pubs[0].doi)) in batch
    ensures forall k :: 0 <= k < |batch| ==> batch[k].gdsUid in uids
  {
    var bound := BoundRows(uids, found);
    var unbound := Unbound(uids, found);
    forall i | 0 <= i < |uids| && found[i].pubs != []
      ensures GdsRow(uids[i], Some(found[i].pubs[0].doi)) in batch
    {
      var x := GdsRow(uids[i], Some(found[i].pubs[0].doi));
      BoundRowsIff(uids, found, x);
      var j :| 0 <= j < |bound| && bound[j] == x;
      assert batch[..|bound|][j] == x;
    }
    forall k | 0 <= k < |batch| ensures batch[k].gdsUid in uids {
      if k < |bound| {
        assert batch[..|bound|][k] == bound[k];
        assert bound[k] in bound;
        BoundRowsIff(uids, found, bound[k]);
      } else {
        assert unbound[k - |bound|] in unbound;
      }
    }
  }
}
