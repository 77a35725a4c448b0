/** Identifier handling from utils.py and the naming conventions of
    Nspider.py: the DOI / PMID / accession / year-month patterns, the
    `_slash` escape that makes a DOI a legal file name, identifier
    classification, the canonical `<doi>.pdf` name, and the string helpers
    that pull a domain or a PMID out of a link. */
module Identifiers {
  import opened Wrappers
  import opened Text

  // ---------------------------------------------------------------------
  // The DOI pattern  [\d\.]+/[\d\w\-\.]+  used with `search`

  predicate DoiLead(c: char) { IsDigit(c) || c == '.' }

  predicate DoiTail(c: char) { IsWordChar(c) || c == '-' || c == '.' }

  /** End of the maximal run of `[\d\.]` characters starting at `i`. */
  function LeadRunEnd(s: string, i: nat): (e: nat)
    requires i <= |s|
    ensures i <= e <= |s|
    ensures forall k :: i <= k < e ==> DoiLead(s[k])
    ensures e == |s| || !DoiLead(s[e])
    decreases |s| - i
  {
    if i == |s| || !DoiLead(s[i]) then i else LeadRunEnd(s, i + 1)
  }

  /** The pattern matches starting at `i`: the greedy `[\d\.]+` cannot give
      characters back usefully, because the `/` that must follow is not in
      its class, so the match exists exactly when the maximal run is
      non-empty, is followed by `/`, and that is followed by one tail
      character. */
  predicate DoiMatchAt(s: string, i: nat)
    requires i <= |s|
  {
    var e := LeadRunEnd(s, i);
    i < e && e + 1 < |s| && s[e] == '/' && DoiTail(s[e + 1])
  }

  /** `bool(regrex_doi_format.search(s))`: some start position matches. */
  predicate DoiFormat(s: string)
  {
    exists i | 0 <= i <= |s| :: DoiMatchAt(s, i)
  }

  /** A `/` at `k` with a digit or `.` right before it and a word
      character, `-` or `.` right after it. */
  predicate DoiSlashAt(s: string, k: nat)
  {
    1 <= k && k + 1 < |s| && s[k] == '/' && DoiLead(s[k - 1]) && DoiTail(s[k + 1])
  }

  /** The DOI search succeeds exactly when some `/` has a digit or `.` right
      before it and a word character, `-` or `.` right after it. */
  lemma DoiFormatIff(s: string)
    ensures DoiFormat(s) <==> exists k: nat :: DoiSlashAt(s, k)
  {
    if DoiFormat(s) {
      DoiFormatHasSlash(s);
    }
    if exists k: nat :: DoiSlashAt(s, k) {
      var k: nat :| DoiSlashAt(s, k);
      assert LeadRunEnd(s, k) == k;
      assert DoiMatchAt(s, k - 1);
    }
  }

  lemma DoiFormatHasSlash(s: string)
    requires DoiFormat(s)
    ensures exists k: nat :: DoiSlashAt(s, k)
  {
    var i :| 0 <= i <= |s| && DoiMatchAt(s, i);
    assert DoiSlashAt(s, LeadRunEnd(s, i));
  }

  /** A string without `/` is never taken for a DOI. */
  lemma NoSlashNoDoi(s: string)
    requires '/' !in s
    ensures !DoiFormat(s)
  {
    DoiFormatIff(s);
  }

  // ---------------------------------------------------------------------
  // The PMID pattern  ^(?!.*[^\d]).+$  used with `search`

  predicate NoNewline(t: string)
  {
    forall k :: 0 <= k < |t| ==> t[k] != '\n'
  }

  /** The negative look-ahead `(?!.*[^\d])` at position 0: no non-digit
      (a newline counts as one) can be reached through a run of
      non-newline characters. */
  predicate NoNonDigitAhead(s: string)
  {
    !exists j | 0 <= j < |s| :: NoNewline(s[..j]) && !IsDigit(s[j])
  }

  /** `.+$` at position 0: a non-empty run of non-newline characters that
      ends at the end of the string or just before a final newline. */
  predicate DotPlusToEnd(s: string)
  {
    exists e | 1 <= e <= |s| :: NoNewline(s[..e]) && (e == |s| || (e == |s| - 1 && s[e] == '\n'))
  }

  /** `bool(regrex_pmid_format.search(s))`; `^` without MULTILINE anchors
      the only possible match at position 0. */
  predicate PmidFormat(s: string)
  {
    NoNonDigitAhead(s) && DotPlusToEnd(s)
  }

  /** Index of the first non-digit, or |s| when there is none. */
  function FirstNonDigit(s: string): (j: nat)
    ensures j <= |s|
    ensures forall k :: 0 <= k < j ==> IsDigit(s[k])
    ensures j < |s| ==> !IsDigit(s[j])
  {
    if s == [] then 0 else if !IsDigit(s[0]) then 0 else 1 + FirstNonDigit(s[1..])
  }

  /** The PMID pattern accepts exactly the non-empty all-digit strings. */
  lemma PmidFormatIff(s: string)
    ensures PmidFormat(s) <==> |s| > 0 && forall k :: 0 <= k < |s| ==> IsDigit(s[k])
  {
    var j := FirstNonDigit(s);
    assert NoNewline(s[..j]);
    if |s| > 0 && forall k :: 0 <= k < |s| ==> IsDigit(s[k]) {
      assert s[..|s|] == s;
      assert NoNewline(s[..|s|]);
    }
  }

  // ---------------------------------------------------------------------
  // The accession pattern  GSE\d+

  /** `GSE` followed by at least one digit starts at `i`. */
  predicate AccessionAt(s: string, i: nat)
  {
    i + 4 <= |s| && s[i..i + 3] == "GSE" && IsDigit(s[i + 3])
  }

  /** `regrex_accession_number.search(s)[0]`: the leftmost match, with the
      greedy `\d+` taking every digit that follows `GSE`. */
  function FirstAccession(s: string, from: nat): (r: Option<string>)
    requires from <= |s|
    ensures r.Some? ==> exists i :: && from <= i && AccessionAt(s, i)
                                    && (forall j :: from <= j < i ==> !AccessionAt(s, j))
                                    && r.value == s[i..i + 3 + FirstNonDigit(s[i + 3..])]
    ensures r.None? <==> forall i :: from <= i <= |s| ==> !AccessionAt(s, i)
    decreases |s| - from
  {
    if AccessionAt(s, from) then Some(s[from..from + 3 + FirstNonDigit(s[from + 3..])])
    else if from == |s| then None
    else
      var r := FirstAccession(s, from + 1);
      if r.Some? then
        var i :| && from + 1 <= i && AccessionAt(s, i)
                 && (forall j :: from + 1 <= j < i ==> !AccessionAt(s, j))
                 && r.value == s[i..i + 3 + FirstNonDigit(s[i + 3..])];
        assert forall j :: from <= j < i ==> !AccessionAt(s, j);
        r
      else r
  }

  // ---------------------------------------------------------------------
  // The year-month pattern  (\d{4} )(Jun|Feb|...|Dec)

  /** The month alternatives exactly as utils.py:12 lists them: `Jun`
      twice and no `Jan`. */
  const MonthsAsWritten: seq<string> :=
    ["Jun", "Feb", "Mar", "Apr", "May", "Jun", "Jul", "Aug", "Sep", "Oct", "Nov", "Dec"]

  /** The twelve calendar months the pattern evidently means to accept. */
  const CalendarMonths: seq<string> :=
    ["Jan", "Feb", "Mar", "Apr", "May", "Jun", "Jul", "Aug", "Sep", "Oct", "Nov", "Dec"]

  predicate YearMonthAt(months: seq<string>, s: string, i: nat)
  {
    i + 8 <= |s| && IsDigit(s[i]) && IsDigit(s[i + 1]) && IsDigit(s[i + 2]) && IsDigit(s[i + 3])
    && s[i + 4] == ' ' && s[i + 5..i + 8] in months
  }

  /** `bool(regrex_year_month.search(s))` for a given month list. */
  predicate YearMonthFormat(months: seq<string>, s: string)
  {
    exists i | 0 <= i <= |s| :: YearMonthAt(months, s, i)
  }

  /** As written, a January date is not recognised, so the `search(text)[0]`
      that consumes it at scraping.py:183 would index `None`. */
  lemma JanuaryRejectedAsWritten()
    ensures !YearMonthFormat(MonthsAsWritten, "2019 Jan")
  {
    assert "2019 Jan"[5..8] == "Jan";
  }

  /** With the calendar month list every month of a year is recognised. */
  lemma EveryMonthRecognised(year: string, m: string)
    requires |year| == 4 && forall k :: 0 <= k < 4 ==> IsDigit(year[k])
    requires m in CalendarMonths
    ensures YearMonthFormat(CalendarMonths, year + " " + m)
    ensures m == "Jan" ==> !YearMonthFormat(MonthsAsWritten, year + " " + m)
  {
    var s := year + " " + m;
    assert s[5..8] == m;
    assert YearMonthAt(CalendarMonths, s, 0);
  }

  // ---------------------------------------------------------------------
  // The `_slash` escape (scraping.py:118) and its inverse (Nspider.py:313)

  const SlashToken: string := "_slash"

  /** `doi.replace('/', '_slash')`. */
  function Escape(doi: string): (r: string)
    ensures '/' !in r
    ensures '/' in doi ==> '_' in r
  {
    if doi == [] then []
    else (if doi[0] == '/' then SlashToken else [doi[0]]) + Escape(doi[1..])
  }

  /** `s.replace('_slash', '/')`: occurrences are found left to right and do
      not overlap. */
  function Unescape(s: string): string
  {
    if s == [] then []
    else if SlashToken <= s then "/" + Unescape(s[|SlashToken|..])
    else [s[0]] + Unescape(s[1..])
  }

  /** A prefix of an escaped string that contains no `_` was copied
      unchanged from the original. */
  lemma {:induction false} EscapedPrefix(q: string, x: string)
    ensures q <= Escape(x) && '_' !in q ==> q <= x
    decreases |q|
  {
    if q != [] && q <= Escape(x) && '_' !in q {
      assert x != [];
      assert q[0] == Escape(x)[0];
      assert Escape(x)[0] == if x[0] == '/' then '_' else x[0];
      assert x[0] != '/';
      assert Escape(x) == [x[0]] + Escape(x[1..]);
      EscapedPrefix(q[1..], x[1..]);
    }
  }

  /** Escaping then un-escaping returns the DOI, provided the DOI does not
      itself contain the escape token. */
  lemma {:induction false} UnescapeEscape(doi: string)
    requires !Contains(doi, SlashToken)
    ensures Unescape(Escape(doi)) == doi
    decreases |doi|
  {
    if doi != [] {
      assert !Contains(doi[1..], SlashToken);
      UnescapeEscape(doi[1..]);
      var e := Escape(doi[1..]);
      if doi[0] == '/' {
        assert Escape(doi) == SlashToken + e;
        assert (SlashToken + e)[|SlashToken|..] == e;
      } else {
        assert Escape(doi) == [doi[0]] + e;
        EscapedPrefix("slash", doi[1..]);
        assert !(SlashToken <= doi);
        assert !(SlashToken <= [doi[0]] + e);
        assert ([doi[0]] + e)[1..] == e;
      }
    }
  }

  // ---------------------------------------------------------------------
  // Identifier classification (Nspider.py:311-318, utils.py:21)

  datatype IdKind = DoiId | PmidId

  /** `load_publication`'s classification: the DOI test runs on the
      un-escaped identifier and comes first; the PMID test runs on the
      identifier as given; anything else raises `AttributeError`. */
  function Classify(identifier: string): (r: Result<IdKind>)
    ensures r == Success(DoiId) <==> DoiFormat(Unescape(identifier))
    ensures r == Success(PmidId) <==> !DoiFormat(Unescape(identifier)) && PmidFormat(identifier)
    ensures r.Failure? <==> !DoiFormat(Unescape(identifier)) && !PmidFormat(identifier)
  {
    if DoiFormat(Unescape(identifier)) then Success(DoiId)
    else if PmidFormat(identifier) then Success(PmidId)
    else Failure("AttributeError")
  }

  /** A stored (escaped) DOI is classified as a DOI again. */
  lemma ClassifyEscapedDoi(doi: string)
    requires DoiFormat(doi) && !Contains(doi, SlashToken)
    ensures Classify(Escape(doi)) == Success(DoiId)
  {
    UnescapeEscape(doi);
  }

  lemma {:induction false} UnescapeDigits(s: string)
    requires forall k :: 0 <= k < |s| ==> IsDigit(s[k])
    ensures Unescape(s) == s
    decreases |s|
  {
    if s != [] {
      assert SlashToken[0] == '_' && IsDigit(s[0]);
      assert !(SlashToken <= s);
      UnescapeDigits(s[1..]);
    }
  }

  /** A non-empty run of digits is classified as a PMID. */
  lemma ClassifyDigits(s: string)
    requires |s| > 0 && forall k :: 0 <= k < |s| ==> IsDigit(s[k])
    ensures Classify(s) == Success(PmidId)
  {
    UnescapeDigits(s);
    PmidFormatIff(s);
    NoSlashNoDoi(s);
  }

  // ---------------------------------------------------------------------
  // File names (Nspider.py:149, Nspider.py:326) and `PurePath.suffix`

  /** The name a downloaded paper is stored under: `<escaped-doi>.pdf`. */
  function CanonicalFileName(doi: string): string
  {
    doi + ".pdf"
  }

  function LastIndexOf(s: string, c: char): (r: Option<nat>)
    ensures r.Some? ==> r.value < |s| && s[r.value] == c && c !in s[r.value + 1..]
    ensures r.None? <==> c !in s
  {
    if s == [] then None
    else if s[|s| - 1] == c then Some(|s| - 1)
    else
      var r := LastIndexOf(s[..|s| - 1], c);
      assert s == s[..|s| - 1] + [s[|s| - 1]];
      if r.Some? then
        assert s[r.value + 1..] == s[..|s| - 1][r.value + 1..] + [s[|s| - 1]];
        r
      else r
  }

  /** `s.split('/')[-1]`: everything after the last `/`, or the whole
      string when it has none. It is the PMID at the end of a PubMed result
      link (scraping.py:194) and the last component of a `glob('*')` entry,
      which never ends in `/`. */
  function LastSegment(s: string): (r: string)
    ensures '/' !in r
    ensures |r| <= |s| && s[|s| - |r|..] == r
    ensures '/' in s ==> |r| < |s| && s[|s| - |r| - 1] == '/'
    ensures '/' !in s ==> r == s
  {
    var parts := SplitOn(s, "/");
    SplitOnCharPieces(s, '/');
    SplitOnLastIsSuffix(s, "/");
    if '/' in s then
      SplitOnLastAfterSeparator(s, '/');
      parts[|parts| - 1]
    else
      assert CountChar(s, '/') == 0 by { CountCharAbsent(s, '/'); }
      SplitOnCharCount(s, '/');
      JoinSplitOn(s, "/");
      parts[|parts| - 1]
  }

  /** `r` is a `/`-free suffix of `s` that is either all of `s` or has a
      `/` just before it. */
  predicate AfterLastSlash(s: string, r: string)
  {
    && '/' !in r
    && |r| <= |s| && s[|s| - |r|..] == r
    && (|r| == |s| || s[|s| - |r| - 1] == '/')
  }

  /** The segment after the last `/` is the only string with that shape, so
      `LastSegment` is determined by where the separators are. */
  lemma LastSegmentUnique(s: string, r: string)
    ensures AfterLastSlash(s, r) <==> r == LastSegment(s)
  {
  }

  /** A directory prefix does not change the last segment. */
  lemma LastSegmentUnderDirectory(dir: string, name: string)
    requires '/' !in name
    ensures LastSegment(dir + "/" + name) == name
  {
    var p := dir + "/" + name;
    assert p[|p| - |name|..] == name;
    assert p[|p| - |name| - 1] == '/';
    LastSegmentUnique(p, name);
  }

  /** `PurePath(path).suffix`: the suffix of the path's last component. */
  function Suffix(path: string): string
  {
    NameSuffix(LastSegment(path))
  }

  /** The suffix of one path component: from its last `.` on, provided that
      dot is neither the first nor the last character. */
  function NameSuffix(name: string): string
  {
    match LastIndexOf(name, '.')
    case Some(i) => if 0 < i < |name| - 1 then name[i..] else ""
    case None => ""
  }

  /** The poll loop's `'.pdf' == suffix` test holds exactly for paths whose
      last component is longer than four characters and ends in `.pdf`. */
  lemma IsPdfIff(path: string)
    ensures var name := LastSegment(path);
            Suffix(path) == ".pdf" <==> |name| > 4 && name[|name| - 4..] == ".pdf"
  {
    NameIsPdfIff(LastSegment(path));
  }

  lemma NameIsPdfIff(name: string)
    ensures NameSuffix(name) == ".pdf" <==> |name| > 4 && name[|name| - 4..] == ".pdf"
  {
    var r := LastIndexOf(name, '.');
    if |name| > 4 && name[|name| - 4..] == ".pdf" {
      assert name[|name| - 4] == '.';
      var i := r.value;
      assert forall j :: i < j < |name| ==> name[j] == name[i + 1..][j - (i + 1)];
      assert forall j :: |name| - 3 <= j < |name| ==> name[j] == name[|name| - 4..][j - (|name| - 4)];
      assert i == |name| - 4;
    }
  }

  /** A `glob` entry is judged by its file name alone: `download/.pdf` is a
      hidden file with no suffix, not a PDF. */
  lemma SuffixOfEntry(dir: string, name: string)
    requires '/' !in name
    ensures Suffix(dir + "/" + name) == Suffix(name)
    ensures Suffix(dir + "/.pdf") == ""
  {
    LastSegmentUnderDirectory(dir, name);
    assert dir + "/.pdf" == dir + "/" + ".pdf";
    LastSegmentUnderDirectory(dir, ".pdf");
    HiddenPdfHasNoSuffix();
  }

  lemma HiddenPdfHasNoSuffix()
    ensures NameSuffix(".pdf") == ""
  {
    var r := LastIndexOf(".pdf", '.');
    assert ".pdf"[0] == '.';
    assert r.Some?;
  }

  /** The canonical name of a DOI is recognised as a PDF exactly when the
      DOI has something after its last `/` (an escaped DOI has no `/` at
      all), and the DOI can be read back from it. */
  lemma CanonicalNameIsPdf(doi: string)
    ensures Suffix(CanonicalFileName(doi)) == ".pdf" <==> LastSegment(doi) != []
    ensures CanonicalFileName(doi)[..|doi|] == doi
  {
    var t := LastSegment(doi) + ".pdf";
    LastSegmentOfCanonical(doi);
    assert t[|t| - 4..] == ".pdf";
    NameIsPdfIff(t);
  }

  /** Appending `.pdf` extends the last segment. */
  lemma LastSegmentOfCanonical(doi: string)
    ensures LastSegment(CanonicalFileName(doi)) == LastSegment(doi) + ".pdf"
  {
    var n := CanonicalFileName(doi);
    var l := LastSegment(doi);
    var t := l + ".pdf";
    assert n[|n| - |t|..] == doi[|doi| - |l|..] + ".pdf";
    if '/' in doi {
      assert n[|n| - |t| - 1] == doi[|doi| - |l| - 1];
    }
    assert AfterLastSlash(n, t);
    LastSegmentUnique(n, t);
  }

  // ---------------------------------------------------------------------
  // Link helpers (scraping.py:136, scraping.py:194, scraping.py:167)

  /** `link.split('/')[2]`, or `IndexError` when the link has fewer than two
      slashes: the text between the second `/` and the third (or the end).
      For `https://host/path` this is the host. */
  function SourceDomain(link: string): (r: Result<string>)
    ensures r.Success? <==> CountChar(link, '/') >= 2
    ensures r.Success? ==> '/' !in r.value && Contains(link, r.value)
    ensures r.Success? ==>
              exists i :: && 1 <= i <= |link| - |r.value|
                          && CountChar(link[..i], '/') == 2 && link[..i][i - 1] == '/'
                          && link[i..][..|r.value|] == r.value
                          && (i + |r.value| == |link| || link[i..][|r.value|] == '/')
  {
    var parts := SplitOn(link, "/");
    SplitOnCharCount(link, '/');
    SplitOnCharPieces(link, '/');
    if |parts| > 2 then
      ThirdPieceInside(link);
      ThirdPieceAt(link);
      Success(parts[2])
    else Failure("IndexError")
  }

  /** The link laid out around its third piece: the first two pieces with
      their separators, the piece, then nothing or a `/`. */
  lemma ThirdPieceLayout(link: string)
    requires |SplitOn(link, "/")| > 2
    ensures var parts := SplitOn(link, "/");
            var rest := JoinTail(parts[3..], "/");
            && link == (parts[0] + "/" + parts[1] + "/") + parts[2] + rest
            && (rest == [] || rest[0] == '/')
  {
    var parts := SplitOn(link, "/");
    JoinSplitOn(link, "/");
    assert parts[1..][0] == parts[1] && parts[1..][1..] == parts[2..];
    assert parts[2..][0] == parts[2] && parts[2..][1..] == parts[3..];
    calc {
      link;
      Join(parts, "/");
      parts[0] + JoinTail(parts[1..], "/");
      parts[0] + ("/" + parts[1] + JoinTail(parts[2..], "/"));
      parts[0] + ("/" + parts[1] + ("/" + parts[2] + JoinTail(parts[3..], "/")));
      (parts[0] + "/" + parts[1] + "/") + parts[2] + JoinTail(parts[3..], "/");
    }
  }

  /** The third piece of a split on `/` occurs in the link. */
  lemma ThirdPieceInside(link: string)
    requires |SplitOn(link, "/")| > 2
    ensures Contains(link, SplitOn(link, "/")[2])
  {
    var parts := SplitOn(link, "/");
    ThirdPieceLayout(link);
    ContainsInfix(parts[0] + "/" + parts[1] + "/", parts[2], JoinTail(parts[3..], "/"));
  }

  /** The third piece of a split on `/` starts right after the second `/`
      and runs to the next `/` or the end. */
  lemma ThirdPieceAt(link: string)
    requires |SplitOn(link, "/")| > 2
    ensures var v := SplitOn(link, "/")[2];
            exists i :: && 1 <= i <= |link| - |v|
                        && CountChar(link[..i], '/') == 2 && link[..i][i - 1] == '/'
                        && link[i..][..|v|] == v
                        && (i + |v| == |link| || link[i..][|v|] == '/')
  {
    var parts := SplitOn(link, "/");
    var v := parts[2];
    var a := parts[0] + "/" + parts[1] + "/";
    var rest := JoinTail(parts[3..], "/");
    ThirdPieceLayout(link);
    SplitOnCharPieces(link, '/');
    assert '/' !in parts[0] && '/' !in parts[1];
    CountCharAbsent(parts[0], '/');
    CountCharAbsent(parts[1], '/');
    CountCharAppend(parts[0], "/", '/');
    CountCharAppend(parts[0] + "/", parts[1], '/');
    CountCharAppend(parts[0] + "/" + parts[1], "/", '/');
    var i := |a|;
    assert link[..i] == a;
    assert link[i..] == v + rest;
    assert link[..i][i - 1] == '/';
    assert link[i..][..|v|] == v;
  }

  /** `text[:-1]`: drops the last character; the empty string stays empty. */
  function DropLast(text: string): string
  {
    if text == [] then [] else text[..|text| - 1]
  }

  /** An author-list description `"A, B, C."` with its final character
      (the period) dropped and split on `", "`. */
  function AuthorList(desc: string): (r: seq<string>)
    ensures |r| >= 1
    ensures desc != [] ==> Join(r, ", ") + [desc[|desc| - 1]] == desc
  {
    JoinSplitOn(DropLast(desc), ", ");
    SplitOn(DropLast(desc), ", ")
  }
}
