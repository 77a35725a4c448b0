/** The resolver's two heuristics (scraping.py:19-24 and scraping.py:82-96):
    word-overlap similarity between a dataset title and an abstract, and the
    greedy test that a publication's author list covers a dataset's
    contributor list. */
module Matching {
  import opened Wrappers
  import opened Text

  // ---------------------------------------------------------------------
  // word_level_comprehension_score

  /** `set(s.split())`. */
  function WordSet(s: string): set<string>
  {
    set k | 0 <= k < |Words(s)| :: Words(s)[k]
  }

  lemma WordSetEmptyIffBlank(s: string)
    ensures WordSet(s) == {} <==> forall i :: 0 <= i < |s| ==> IsSpace(s[i])
  {
    NoWordsIffBlank(s);
    if Words(s) != [] {
      assert Words(s)[0] in WordSet(s);
    }
  }

  lemma SubsetCardinality<T>(a: set<T>, b: set<T>)
    requires a <= b
    ensures |a| <= |b|
    ensures |a| == |b| ==> a == b
  {
    assert b == a + (b - a);
    assert |b| == |a| + |b - a|;
    if |a| == |b| {
      assert |b - a| == 0;
      assert b - a == {};
    }
  }

  lemma DisjointIffEmptyIntersection<T>(a: set<T>, b: set<T>)
    ensures |a * b| == 0 <==> a !! b
  {
    if !(a !! b) {
      var w :| w in a && w in b;
      assert w in a * b;
    }
  }

  /** `len(src_words & tgt_words) / len(src_words)`, exact rather than
      floating point. A source with no words makes Python raise
      `ZeroDivisionError`. The score lies in [0, 1] and is 1 exactly when
      every word of the source occurs in the target. */
  function Score(src: string, tgt: string): (r: Result<real>)
    ensures r.Failure? <==> forall i :: 0 <= i < |src| ==> IsSpace(src[i])
    ensures r.Success? ==> 0.0 <= r.value <= 1.0
    ensures r.Success? ==> (r.value == 1.0 <==> WordSet(src) <= WordSet(tgt))
    ensures r.Success? ==> (r.value == 0.0 <==> WordSet(src) !! WordSet(tgt))
  {
    WordSetEmptyIffBlank(src);
    OverlapFacts(WordSet(src), WordSet(tgt));
    if |WordSet(src)| == 0 then Failure("ZeroDivisionError")
    else
      RatioFacts(|WordSet(src) * WordSet(tgt)|, |WordSet(src)|);
      Success(|WordSet(src) * WordSet(tgt)| as real / |WordSet(src)| as real)
  }

  lemma OverlapFacts<T>(a: set<T>, b: set<T>)
    ensures |a * b| <= |a|
    ensures |a * b| == |a| <==> a <= b
    ensures |a * b| == 0 <==> a !! b
  {
    SubsetCardinality(a * b, a);
    DisjointIffEmptyIntersection(a, b);
    if |a * b| == |a| {
      assert a * b == a;
      forall x | x in a ensures x in b {
        assert x in a * b;
      }
    }
    if a <= b {
      assert a * b == a;
    }
  }

  lemma RatioFacts(c: nat, n: nat)
    requires 0 < n && c <= n
    ensures 0.0 <= c as real / n as real <= 1.0
    ensures c as real / n as real == 1.0 <==> c == n
    ensures c as real / n as real == 0.0 <==> c == 0
  {
  }

  // ---------------------------------------------------------------------
  // sorted(xs, reverse=True, key=len): a stable sort, longest first

  predicate SortedByLengthDesc(s: seq<string>)
  {
    forall i, j :: 0 <= i < j < |s| ==> |s[i]| >= |s[j]|
  }

  /** The elements of `s` of length `n`, in their order in `s`. */
  function OfLength(s: seq<string>, n: nat): seq<string>
  {
    if s == [] then [] else (if |s[0]| == n then [s[0]] else []) + OfLength(s[1..], n)
  }

  lemma {:induction false} OfLengthAppend(a: seq<string>, b: seq<string>, n: nat)
    ensures OfLength(a + b, n) == OfLength(a, n) + OfLength(b, n)
    decreases |a|
  {
    if a == [] {
      assert a + b == b;
    } else {
      assert (a + b)[1..] == a[1..] + b;
      OfLengthAppend(a[1..], b, n);
    }
  }

  lemma {:induction false} OfLengthNone(s: seq<string>, n: nat)
    requires forall k :: 0 <= k < |s| ==> |s[k]| != n
    ensures OfLength(s, n) == []
    decreases |s|
  {
    if s != [] {
      OfLengthNone(s[1..], n);
    }
  }

  /** Inserts `x` after every element at least as long, so that among equal
      lengths earlier insertions stay first. */
  function InsertByLength(x: string, s: seq<string>): (r: seq<string>)
    requires SortedByLengthDesc(s)
    ensures SortedByLengthDesc(r)
    ensures multiset(r) == multiset(s) + multiset{x}
    ensures |r| == |s| + 1
    ensures r[0] == x || (s != [] && r[0] == s[0])
  {
    if s == [] then [x]
    else if |s[0]| >= |x| then
      var rest := InsertByLength(x, s[1..]);
      assert s == [s[0]] + s[1..];
      SortedCons(s[0], rest);
      [s[0]] + rest
    else
      assert s == [s[0]] + s[1..];
      SortedCons(x, s);
      [x] + s
  }

  lemma SortedCons(h: string, t: seq<string>)
    requires SortedByLengthDesc(t)
    requires t == [] || |h| >= |t[0]|
    ensures SortedByLengthDesc([h] + t)
  {
    var r := [h] + t;
    forall i, j | 0 <= i < j < |r| ensures |r[i]| >= |r[j]| {
      if i == 0 {
        assert r[j] == t[j - 1];
        assert |t[0]| >= |t[j - 1]|;
      } else {
        assert r[i] == t[i - 1] && r[j] == t[j - 1];
      }
    }
  }

  /** Inserting `x` appends it to the strings of its own length and leaves
      the strings of every other length as they were. */
  lemma {:induction false} InsertByLengthOfLength(x: string, s: seq<string>, n: nat)
    requires SortedByLengthDesc(s)
    ensures OfLength(InsertByLength(x, s), n) == OfLength(s, n) + (if |x| == n then [x] else [])
    decreases |s|
  {
    if s == [] {
    } else if |s[0]| >= |x| {
      InsertByLengthOfLength(x, s[1..], n);
      InsertAfterHead(x, s);
      OfLengthAfterHead(s, InsertByLength(x, s[1..]), n, if |x| == n then [x] else []);
    } else {
      InsertAtFrontOfLength(x, s, n);
    }
  }

  /** Putting the head of `s` in front of a sequence that has the strings
      of length `n` of `s[1..]` plus `tail` keeps that relation for `s`. */
  lemma OfLengthAfterHead(s: seq<string>, rest: seq<string>, n: nat, tail: seq<string>)
    requires s != []
    requires OfLength(rest, n) == OfLength(s[1..], n) + tail
    ensures OfLength([s[0]] + rest, n) == OfLength(s, n) + tail
  {
    var h := if |s[0]| == n then [s[0]] else [];
    var mid := OfLength(s[1..], n);
    OfLengthCons(s[0], rest, n);
    assert OfLength(s, n) == h + mid;
    assert h + (mid + tail) == (h + mid) + tail;
  }

  lemma InsertAfterHead(x: string, s: seq<string>)
    requires s != [] && SortedByLengthDesc(s) && SortedByLengthDesc(s[1..]) && |s[0]| >= |x|
    ensures InsertByLength(x, s) == [s[0]] + InsertByLength(x, s[1..])
  {
  }

  lemma OfLengthCons(y: string, t: seq<string>, n: nat)
    ensures OfLength([y] + t, n) == (if |y| == n then [y] else []) + OfLength(t, n)
  {
    assert ([y] + t)[1..] == t;
  }

  lemma InsertAtFrontOfLength(x: string, s: seq<string>, n: nat)
    requires SortedByLengthDesc(s) && s != [] && |s[0]| < |x|
    ensures OfLength(InsertByLength(x, s), n) == OfLength(s, n) + (if |x| == n then [x] else [])
  {
    assert InsertByLength(x, s) == [x] + s;
    assert ([x] + s)[1..] == s;
    if |x| == n {
      assert forall k :: 0 <= k < |s| ==> |s[k]| <= |s[0]|;
      OfLengthNone(s, n);
    }
  }

  /** Python's `sorted(xs, reverse=True, key=len)`: a permutation of `xs`,
      longest first. */
  function SortByLengthDesc(xs: seq<string>): (r: seq<string>)
    ensures SortedByLengthDesc(r)
    ensures multiset(r) == multiset(xs)
    ensures |r| == |xs|
  {
    if xs == [] then []
    else
      var init := xs[..|xs| - 1];
      assert xs == init + [xs[|xs| - 1]];
      var r := InsertByLength(xs[|xs| - 1], SortByLengthDesc(init));
      assert |r| == |multiset(r)|;
      r
  }

  /** The sort is stable: for every length, the strings of that length
      appear in the result in the order they had in the input. */
  lemma {:induction false} SortByLengthDescStable(xs: seq<string>, n: nat)
    ensures OfLength(SortByLengthDesc(xs), n) == OfLength(xs, n)
    decreases |xs|
  {
    if xs != [] {
      var init := xs[..|xs| - 1];
      var last := xs[|xs| - 1];
      assert xs == init + [last];
      SortByLengthDescStable(init, n);
      InsertByLengthOfLength(last, SortByLengthDesc(init), n);
      OfLengthAppend(init, [last], n);
    }
  }

  // ---------------------------------------------------------------------
  // _is_their_publication

  /** `(a in b) | (b in a)`: one name is a substring of the other. */
  predicate IsSame(a: string, b: string)
  {
    Contains(b, a) || Contains(a, b)
  }

  /** Index of the first author compatible with `c` (the inner `for ... break`). */
  function FirstCompatible(c: string, authors: seq<string>): (r: Option<nat>)
    ensures r.Some? ==> r.value < |authors| && IsSame(c, authors[r.value])
                        && forall k :: 0 <= k < r.value ==> !IsSame(c, authors[k])
    ensures r.None? <==> forall k :: 0 <= k < |authors| ==> !IsSame(c, authors[k])
  {
    if authors == [] then None
    else if IsSame(c, authors[0]) then Some(0)
    else match FirstCompatible(c, authors[1..])
      case None => None
      case Some(i) => Some(i + 1)
  }

  function RemoveAt(s: seq<string>, i: nat): (r: seq<string>)
    requires i < |s|
    ensures |r| == |s| - 1
    ensures multiset(r) == multiset(s) - multiset{s[i]}
  {
    assert s == s[..i] + [s[i]] + s[i + 1..];
    s[..i] + s[i + 1..]
  }

  /** The value of `count` after the outer loop: each contributor in turn
      takes and removes the first compatible remaining author; a
      contributor with no compatible author takes nothing and the scan goes
      on. */
  function GreedyCount(contributors: seq<string>, authors: seq<string>): (n: nat)
    ensures n <= |contributors| && n <= |authors|
    decreases |contributors|
  {
    if contributors == [] then 0
    else match FirstCompatible(contributors[0], authors)
      case None => GreedyCount(contributors[1..], authors)
      case Some(i) => 1 + GreedyCount(contributors[1..], RemoveAt(authors, i))
  }

  /** `_is_their_publication(contributors, authers)`. The caller's lists are
      not changed: only sorted copies are consumed. */
  function IsTheirPublication(contributors: seq<string>, authors: seq<string>): (r: bool)
    ensures r ==> |contributors| <= |authors|
    ensures contributors == [] ==> r
  {
    GreedyCount(SortByLengthDesc(contributors), SortByLengthDesc(authors)) == |contributors|
  }

  /** The early-exit reading of the greedy scan: every contributor, in turn,
      finds a compatible author among those not yet taken. */
  predicate GreedyAllMatched(contributors: seq<string>, authors: seq<string>)
    decreases |contributors|
  {
    contributors == [] ||
    match FirstCompatible(contributors[0], authors)
    case None => false
    case Some(i) => GreedyAllMatched(contributors[1..], RemoveAt(authors, i))
  }

  /** Counting matches and comparing with the number of contributors is the
      same as requiring every contributor to be matched as it is reached. */
  lemma {:induction false} GreedyCountIffAllMatched(contributors: seq<string>, authors: seq<string>)
    ensures GreedyCount(contributors, authors) == |contributors| <==> GreedyAllMatched(contributors, authors)
    decreases |contributors|
  {
    if contributors != [] {
      match FirstCompatible(contributors[0], authors)
      case None =>
        assert GreedyCount(contributors[1..], authors) <= |contributors| - 1;
      case Some(i) =>
        GreedyCountIffAllMatched(contributors[1..], RemoveAt(authors, i));
    }
  }

  /** The authors the greedy scan pairs with the contributors it matches. */
  function GreedyPartners(contributors: seq<string>, authors: seq<string>): (p: seq<string>)
    ensures GreedyAllMatched(contributors, authors) ==>
              |p| == |contributors| && multiset(p) <= multiset(authors)
              && forall k :: 0 <= k < |p| ==> IsSame(contributors[k], p[k])
    decreases |contributors|
  {
    if contributors == [] then []
    else match FirstCompatible(contributors[0], authors)
      case None => []
      case Some(i) => [authors[i]] + GreedyPartners(contributors[1..], RemoveAt(authors, i))
  }

  /** A positive answer exhibits a matching: in length order, every
      contributor is paired with a compatible author, and no author is used
      more often than it occurs in the author list. */
  lemma TheirPublicationHasMatching(contributors: seq<string>, authors: seq<string>)
    requires IsTheirPublication(contributors, authors)
    ensures var cs := SortByLengthDesc(contributors);
            var p := GreedyPartners(cs, SortByLengthDesc(authors));
            |p| == |contributors| && multiset(p) <= multiset(authors)
            && forall k :: 0 <= k < |p| ==> IsSame(cs[k], p[k])
  {
    GreedyCountIffAllMatched(SortByLengthDesc(contributors), SortByLengthDesc(authors));
  }

  /** The pairwise name test is symmetric. */
  lemma IsSameSymmetric(a: string, b: string)
    ensures IsSame(a, b) <==> IsSame(b, a)
  {
  }

  /** Worked cases. An abbreviated first name is not a substring of the
      full one, so `["J Smith"]` does not match `["John Smith"]`, while a
      bare surname does; two contributors cannot be covered by one author. */
  lemma AuthorMatchExamples()
    ensures !IsTheirPublication(["J Smith"], ["John Smith"])
    ensures IsTheirPublication(["Smith"], ["John Smith"])
    ensures !IsTheirPublication(["J Smith", "A Lee"], ["Smith"])
  {
    ExampleContainment();
  }

  lemma ExampleContainment()
    ensures Contains("John Smith", "Smith")
    ensures !Contains("John Smith", "J Smith")
    ensures !Contains("J Smith", "John Smith")
  {
    ContainsInfix("John ", "Smith", "");
    assert "John " + "Smith" + "" == "John Smith";
    AbbreviationNotContained();
    ContainsIff("J Smith", "John Smith");
  }

  lemma AbbreviationNotContained()
    ensures !Contains("John Smith", "J Smith")
  {
    ContainsIff("John Smith", "J Smith");
    forall i | 0 <= i <= 10 ensures !("J Smith" <= "John Smith"[i..]) {
      if i <= 3 {
        assert "John Smith"[i..][1] != ' ' || "John Smith"[i..][0] != 'J';
      }
    }
  }

  lemma SortTwoByLength(a: string, b: string)
    requires |a| >= |b|
    ensures SortByLengthDesc([a, b]) == [a, b]
  {
    assert [a, b][..1] == [a];
    assert SortByLengthDesc([a]) == [a];
    assert SortByLengthDesc([a, b]) == InsertByLength(b, [a]);
    assert InsertByLength(b, [a]) == [a] + InsertByLength(b, []);
  }

  lemma GreedyCountPair(c1: string, c2: string, a1: string, a2: string)
    requires IsSame(c1, a1) && !IsSame(c2, a2)
    ensures GreedyCount([c1, c2], [a1, a2]) == 1
  {
    assert FirstCompatible(c1, [a1, a2]) == Some(0);
    assert RemoveAt([a1, a2], 0) == [a2];
    assert FirstCompatible(c2, [a2]) == None by {
      assert [a2][1..] == [];
    }
    assert [c1, c2][1..] == [c2];
    assert [c2][1..] == [];
  }

  /** Two contributors and two authors where the first contributor takes
      the first author and the second contributor is incompatible with the
      author that is left. */
  lemma GreedyTakesFirst(c1: string, c2: string, a1: string, a2: string)
    requires |c1| >= |c2| && |a1| >= |a2|
    requires IsSame(c1, a1) && !IsSame(c2, a2)
    ensures !IsTheirPublication([c1, c2], [a1, a2])
  {
    SortTwoByLength(c1, c2);
    SortTwoByLength(a1, a2);
    GreedyCountPair(c1, c2, a1, a2);
  }

  lemma ContainsSelfInfix(a: string, needle: string, b: string, hay: string)
    requires hay == a + needle + b
    ensures Contains(hay, needle)
  {
    ContainsInfix(a, needle, b);
  }

  lemma NotContainsOneChar(x: char, y: char)
    requires x != y
    ensures !Contains([x], [y])
  {
    assert [x][1..] == [];
    assert !Contains([], [y]);
    assert [x][..1] == [x] && [y] != [x];
  }

  /** The greedy scan is not a complete bipartite matcher: here `ab` takes
      `abc`, leaving `b` nothing, although pairing `ab`-`a` and `b`-`abc`
      would cover both contributors. */
  lemma GreedyMissesSomeMatchings()
    ensures !IsTheirPublication(["ab", "b"], ["abc", "a"])
    ensures IsSame("ab", "a") && IsSame("b", "abc")
  {
    ContainsSelfInfix("", "ab", "c", "abc");
    ContainsSelfInfix("a", "b", "c", "abc");
    ContainsSelfInfix("", "a", "b", "ab");
    NotContainsOneChar('a', 'b');
    NotContainsOneChar('b', 'a');
    GreedyTakesFirst("ab", "b", "abc", "a");
  }
}
