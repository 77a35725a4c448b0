/** The three tables of the registry (utils.py:30-34) and the rows the
    detail fetcher produces for them (scraping.py:117-140). */
module Tables {
  import opened Wrappers
  import opened Text
  import Identifiers

  /** The `successful_donwload` cell: `None` until an attempt sequence has
      run, then `True` or `False`. */
  datatype DownloadStatus = NotAttempted | Succeeded | Failed

  datatype GdsRow = GdsRow(gdsUid: string, doi: Option<string>)

  datatype PublicationRow = PublicationRow(
    doi: string, pmid: string, isFreePmc: bool, title: string, abstractText: string,
    download: DownloadStatus)

  datatype SourceRow = SourceRow(doi: string, srcDomain: string, linkToPaper: string)

  const GdsColumns: seq<string> := ["gds_uid", "doi"]
  const PublicationColumns: seq<string> :=
    ["doi", "pmid", "is_free_pmc", "title", "abstract", "successful_donwload"]
  const SourceColumns: seq<string> := ["doi", "src_domain", "link_to_paper"]

  /** Position of the first column called `name`. */
  function ColumnIndex(columns: seq<string>, name: string): (r: Option<nat>)
    ensures r.Some? ==> r.value < |columns| && columns[r.value] == name && name !in columns[..r.value]
    ensures r.None? <==> name !in columns
  {
    if columns == [] then None
    else if columns[0] == name then Some(0)
    else match ColumnIndex(columns[1..], name)
      case None => None
      case Some(i) =>
        assert columns[..i + 1] == [columns[0]] + columns[1..][..i];
        Some(i + 1)
  }

  /** One cell of a table as pandas holds it. */
  datatype Cell = Str(s: string) | Flag(b: bool) | Null

  function StatusCell(d: DownloadStatus): Cell
  {
    match d
    case NotAttempted => Null
    case Succeeded => Flag(true)
    case Failed => Flag(false)
  }

  function OptionCell(o: Option<string>): Cell
  {
    match o
    case None => Null
    case Some(s) => Str(s)
  }

  /** A gds row as a list of cells, in the order of the gds schema. */
  function GdsCells(row: GdsRow): (r: seq<Cell>)
    ensures |r| == |GdsColumns|
    ensures r[ColumnIndex(GdsColumns, "gds_uid").value] == Str(row.gdsUid)
    ensures r[ColumnIndex(GdsColumns, "doi").value] == OptionCell(row.doi)
  {
    [Str(row.gdsUid), OptionCell(row.doi)]
  }

  /** A publication row as the list `[doi, pmid, is_free_pmc, title,
      abstract, successful_donwload]` built at scraping.py:132. */
  function PublicationCells(row: PublicationRow): (r: seq<Cell>)
    ensures |r| == |PublicationColumns|
  {
    [Str(row.doi), Str(row.pmid), Flag(row.isFreePmc), Str(row.title), Str(row.abstractText),
     StatusCell(row.download)]
  }

  lemma PublicationColumnPositions()
    ensures ColumnIndex(PublicationColumns, "doi") == Some(0)
    ensures ColumnIndex(PublicationColumns, "successful_donwload") == Some(5)
  {
    var c := PublicationColumns;
    assert |c[0]| == 3 && |c[1]| == 4 && |c[2]| == 11 && |c[3]| == 5 && |c[4]| == 8 && |c[5]| == 19;
    ColumnIndexOfFirst(c, 0, "doi");
    ColumnIndexOfFirst(c, 5, "successful_donwload");
  }

  /** A column whose name is longer or shorter than every earlier one is
      found at its own position. */
  lemma ColumnIndexOfFirst(columns: seq<string>, k: nat, name: string)
    requires k < |columns| && columns[k] == name && forall j :: 0 <= j < k ==> |columns[j]| != |name|
    ensures ColumnIndex(columns, name) == Some(k)
  {
    assert columns[k] in columns;
  }


  /** A source row as the list `[doi, src_domain, link_to_paper]` built at
      scraping.py:138. */
  function SourceCells(row: SourceRow): (r: seq<Cell>)
    ensures |r| == |SourceColumns| == 3
    ensures ColumnIndex(SourceColumns, "doi") == Some(0) && r[0] == Str(row.doi)
    ensures r[ColumnIndex(SourceColumns, "link_to_paper").value] == Str(row.linkToPaper)
  {
    [Str(row.doi), Str(row.srcDomain), Str(row.linkToPaper)]
  }

  /** Reading a download status back from its cell: a missing value is a
      DOI that was not attempted, a flag is the outcome. */
  function StatusFromCell(c: Cell): Option<DownloadStatus>
  {
    match c
    case Null => Some(NotAttempted)
    case Flag(b) => Some(if b then Succeeded else Failed)
    case Str(_) => None
  }

  /** Reading a publication row back from its cells. */
  function PublicationFromCells(cells: seq<Cell>): Option<PublicationRow>
  {
    if |cells| != 6 || !cells[0].Str? || !cells[1].Str? || !cells[2].Flag? || !cells[3].Str? || !cells[4].Str?
    then None
    else match StatusFromCell(cells[5])
      case None => None
      case Some(d) => Some(PublicationRow(cells[0].s, cells[1].s, cells[2].b, cells[3].s, cells[4].s, d))
  }

  lemma PublicationCellsRoundTrip(row: PublicationRow)
    ensures PublicationFromCells(PublicationCells(row)) == Some(row)
  {
  }

  /** The rows `search_publication_detail` emits for one abstract page: the
      publication with no download status yet, and one source per link,
      its domain being the link's third `/`-separated segment. A link with
      fewer than two slashes raises `IndexError`. */
  function ScrapedSources(doi: string, links: seq<string>): (r: Result<seq<SourceRow>>)
    ensures r.Success? <==> forall k :: 0 <= k < |links| ==> Identifiers.SourceDomain(links[k]).Success?
    ensures r.Success? ==> |r.value| == |links|
    ensures r.Success? ==> forall k :: 0 <= k < |links| ==>
              r.value[k].doi == doi && r.value[k].linkToPaper == links[k]
              && '/' !in r.value[k].srcDomain && Contains(links[k], r.value[k].srcDomain)
  {
    if links == [] then Success([])
    else match Identifiers.SourceDomain(links[0])
      case Failure(e) => Failure(e)
      case Success(domain) =>
        match ScrapedSources(doi, links[1..])
        case Failure(e) => Failure(e)
        case Success(rest) => Success([SourceRow(doi, domain, links[0])] + rest)
  }

  function ScrapedPublication(escapedDoi: string, pmid: string, isFreePmc: bool, title: string, abstractText: string): (r: PublicationRow)
    ensures r.download == NotAttempted && r.doi == escapedDoi
  {
    PublicationRow(escapedDoi, pmid, isFreePmc, title, abstractText, NotAttempted)
  }
}
