/** Character classes and the handful of Python `str` operations the core
    relies on: `in`, `split(sep)`, `split()` and `'sep'.join`.  Character
    classes are the ASCII subset of Python's Unicode-aware `\d`, `\w` and
    whitespace. */
module Text {

  predicate IsDigit(c: char) { '0' <= c <= '9' }

  /** `\w`: letters, digits and underscore. */
  predicate IsWordChar(c: char)
  {
    IsDigit(c) || ('a' <= c <= 'z') || ('A' <= c <= 'Z') || c == '_'
  }

  /** The ASCII characters `str.split()` with no argument splits on: space,
      `\t`, `\n`, `\r`, vertical tab, form feed, and the four separators
      `\x1c` to `\x1f`, which Python's `str.isspace` also counts. */
  predicate IsSpace(c: char)
  {
    c == ' ' || c == '\t' || c == '\n' || c == '\r' || c == '\U{0B}' || c == '\U{0C}'
    || ('\U{1C}' <= c <= '\U{1F}')
  }

  /** Python's `needle in hay` on strings: some suffix of `hay` starts with `needle`. */
  predicate Contains(hay: string, needle: string)
    decreases |hay|
  {
    needle <= hay || (hay != [] && Contains(hay[1..], needle))
  }

  lemma {:induction false} ContainsIff(hay: string, needle: string)
    ensures Contains(hay, needle) <==> exists i :: 0 <= i <= |hay| && needle <= hay[i..]
    decreases |hay|
  {
    if needle <= hay {
      assert hay[0..] == hay;
    } else if hay == [] {
    } else {
      ContainsIff(hay[1..], needle);
      assert forall i :: 1 <= i <= |hay| ==> hay[1..][i - 1..] == hay[i..];
      assert hay[0..] == hay;
    }
  }

  /** A string contains each of its infixes. */
  lemma {:induction false} ContainsInfix(a: string, needle: string, b: string)
    ensures Contains(a + needle + b, needle)
    decreases |a|
  {
    if a == [] {
      assert a + needle + b == needle + b;
    } else {
      assert (a + needle + b)[1..] == a[1..] + needle + b;
      ContainsInfix(a[1..], needle, b);
    }
  }

  // ---------------------------------------------------------------------
  // str.split(sep) and sep.join(parts)

  /** `sep.join(parts)`. */
  function Join(parts: seq<string>, sep: string): string
  {
    if parts == [] then "" else parts[0] + JoinTail(parts[1..], sep)
  }

  /** The part of a join after its first piece: every piece preceded by `sep`. */
  function JoinTail(parts: seq<string>, sep: string): string
  {
    if parts == [] then "" else sep + parts[0] + JoinTail(parts[1..], sep)
  }

  /** Python's `s.split(sep)` for a non-empty separator: scanning left to
      right, every occurrence of `sep` ends one piece and starts the next;
      empty pieces are kept, so the result is never empty. */
  function SplitOn(s: string, sep: string): (r: seq<string>)
    requires |sep| > 0
    ensures |r| >= 1
    decreases |s|
  {
    if |s| < |sep| then [s]
    else if s[..|sep|] == sep then [""] + SplitOn(s[|sep|..], sep)
    else
      var rest := SplitOn(s[1..], sep);
      [[s[0]] + rest[0]] + rest[1..]
  }

  /** Joining the pieces with the separator gives the string back. */
  lemma {:induction false} JoinSplitOn(s: string, sep: string)
    requires |sep| > 0
    ensures Join(SplitOn(s, sep), sep) == s
    decreases |s|
  {
    if |s| < |sep| {
    } else if s[..|sep|] == sep {
      JoinSplitOn(s[|sep|..], sep);
      var rest := SplitOn(s[|sep|..], sep);
      calc {
        Join([""] + rest, sep);
        "" + JoinTail(rest, sep);
        { assert rest == [rest[0]] + rest[1..]; }
        sep + rest[0] + JoinTail(rest[1..], sep);
        { assert s == s[..|sep|] + s[|sep|..]; }
        s;
      }
    } else {
      JoinSplitOn(s[1..], sep);
      var rest := SplitOn(s[1..], sep);
      var r := [[s[0]] + rest[0]] + rest[1..];
      assert r[1..] == rest[1..];
      calc {
        Join(r, sep);
        [s[0]] + rest[0] + JoinTail(rest[1..], sep);
        [s[0]] + Join(rest, sep);
        { assert s == [s[0]] + s[1..]; }
        s;
      }
    }
  }

  /** With a one-character separator no piece contains the separator. */
  lemma {:induction false} SplitOnCharPieces(s: string, c: char)
    ensures forall k :: 0 <= k < |SplitOn(s, [c])| ==> c !in SplitOn(s, [c])[k]
    decreases |s|
  {
    if |s| < 1 {
    } else if s[..1] == [c] {
      SplitOnCharPieces(s[1..], c);
    } else {
      SplitOnCharPieces(s[1..], c);
      assert s[0] != c by { assert s[..1] == [s[0]]; }
    }
  }

  /** The last piece of a split is a suffix of the split string: the
      pieces join back to the string, and a join ends with its last piece. */
  lemma SplitOnLastIsSuffix(s: string, sep: string)
    requires |sep| > 0
    ensures var r := SplitOn(s, sep);
            |r[|r| - 1]| <= |s| && s[|s| - |r[|r| - 1]|..] == r[|r| - 1]
  {
    JoinSplitOn(s, sep);
    JoinEndsWithLast(SplitOn(s, sep), sep);
  }

  /** A join ends with its last piece. */
  lemma JoinEndsWithLast(parts: seq<string>, sep: string)
    requires parts != []
    ensures var j := Join(parts, sep);
            |parts[|parts| - 1]| <= |j| && j[|j| - |parts[|parts| - 1]|..] == parts[|parts| - 1]
  {
    var last := parts[|parts| - 1];
    if |parts| == 1 {
      assert Join(parts, sep) == parts[0] + "";
    } else {
      JoinTailEndsWithLast(parts[1..], sep);
      SuffixOfConcat(parts[0], JoinTail(parts[1..], sep), last);
    }
  }

  lemma {:induction false} JoinTailEndsWithLast(parts: seq<string>, sep: string)
    requires parts != []
    ensures var j := JoinTail(parts, sep);
            |parts[|parts| - 1]| <= |j| && j[|j| - |parts[|parts| - 1]|..] == parts[|parts| - 1]
    decreases |parts|
  {
    var last := parts[|parts| - 1];
    if |parts| == 1 {
      assert JoinTail(parts, sep) == sep + parts[0] + "";
      SuffixOfConcat(sep, parts[0], last);
    } else {
      JoinTailEndsWithLast(parts[1..], sep);
      assert JoinTail(parts, sep) == (sep + parts[0]) + JoinTail(parts[1..], sep);
      SuffixOfConcat(sep + parts[0], JoinTail(parts[1..], sep), last);
    }
  }

  /** After its first piece a join ends with the separator followed by the
      last piece. */
  lemma {:induction false} JoinTailEndsWithSepLast(parts: seq<string>, sep: string)
    requires parts != []
    ensures var j := JoinTail(parts, sep);
            var t := sep + parts[|parts| - 1];
            |t| <= |j| && j[|j| - |t|..] == t
    decreases |parts|
  {
    var t := sep + parts[|parts| - 1];
    var tail := parts[1..];
    if tail == [] {
      assert JoinTail(parts, sep) == t + JoinTail(tail, sep);
    } else {
      JoinTailEndsWithSepLast(tail, sep);
      assert tail[|tail| - 1] == parts[|parts| - 1];
      SuffixOfConcat(sep + parts[0], JoinTail(tail, sep), t);
    }
  }

  /** When the separator character occurs, the last piece of the split is
      preceded by it: `s.split(c)[-1]` is everything after the last `c`. */
  lemma SplitOnLastAfterSeparator(s: string, c: char)
    requires c in s
    ensures var r := SplitOn(s, [c]);
            var l := r[|r| - 1];
            |l| < |s| && s[|s| - |l| - 1] == c
  {
    var r := SplitOn(s, [c]);
    var l := r[|r| - 1];
    SplitOnCharCount(s, c);
    CountCharPresent(s, c);
    JoinSplitOn(s, [c]);
    assert r[1..][|r[1..]| - 1] == l;
    JoinTailEndsWithSepLast(r[1..], [c]);
    SuffixOfConcat(r[0], JoinTail(r[1..], [c]), [c] + l);
    assert s[|s| - |l| - 1..][0] == c;
  }

  /** A suffix of `b` is a suffix of `a + b`. */
  lemma SuffixOfConcat(a: string, b: string, t: string)
    requires |t| <= |b| && b[|b| - |t|..] == t
    ensures |t| <= |a + b| && (a + b)[|a + b| - |t|..] == t
  {
    assert (a + b)[|a + b| - |t|..] == b[|b| - |t|..];
  }

  /** Number of occurrences of `c` in `s`. */
  function CountChar(s: string, c: char): nat
  {
    if s == [] then 0 else (if s[0] == c then 1 else 0) + CountChar(s[1..], c)
  }

  /** A character that does not occur is not counted. */
  lemma {:induction false} CountCharAbsent(s: string, c: char)
    requires c !in s
    ensures CountChar(s, c) == 0
    decreases |s|
  {
    if s != [] {
      CountCharAbsent(s[1..], c);
    }
  }

  /** A character that occurs is counted. */
  lemma {:induction false} CountCharPresent(s: string, c: char)
    requires c in s
    ensures CountChar(s, c) > 0
    decreases |s|
  {
    if s[0] != c {
      assert c in s[1..] by {
        var i :| 0 <= i < |s| && s[i] == c;
        assert s[1..][i - 1] == c;
      }
      CountCharPresent(s[1..], c);
    }
  }

  /** Occurrences in a concatenation add up. */
  lemma {:induction false} CountCharAppend(a: string, b: string, c: char)
    ensures CountChar(a + b, c) == CountChar(a, c) + CountChar(b, c)
    decreases |a|
  {
    if a == [] {
      assert a + b == b;
    } else {
      assert (a + b)[1..] == a[1..] + b;
      CountCharAppend(a[1..], b, c);
    }
  }

  /** Splitting on a character yields one more piece than there are
      occurrences of that character. */
  lemma {:induction false} SplitOnCharCount(s: string, c: char)
    ensures |SplitOn(s, [c])| == CountChar(s, c) + 1
    decreases |s|
  {
    if |s| >= 1 {
      assert s[..1] == [s[0]];
      SplitOnCharCount(s[1..], c);
    }
  }

  // ---------------------------------------------------------------------
  // str.split() with no argument

  /** Length of the run of non-whitespace characters that starts `s`. */
  function RunLength(s: string): (n: nat)
    ensures n <= |s|
    ensures forall i :: 0 <= i < n ==> !IsSpace(s[i])
    ensures n == |s| || IsSpace(s[n])
  {
    if s == [] || IsSpace(s[0]) then 0 else 1 + RunLength(s[1..])
  }

  /** Python's `s.split()`: the maximal runs of non-whitespace characters,
      in order. */
  function Words(s: string): (r: seq<string>)
    ensures forall k :: 0 <= k < |r| ==> r[k] != [] && forall i :: 0 <= i < |r[k]| ==> !IsSpace(r[k][i])
    decreases |s|
  {
    if s == [] then []
    else if IsSpace(s[0]) then Words(s[1..])
    else
      var n := RunLength(s);
      [s[..n]] + Words(s[n..])
  }

  function Concat(parts: seq<string>): string
  {
    if parts == [] then "" else parts[0] + Concat(parts[1..])
  }

  /** `s` with its whitespace characters removed. */
  function NonSpace(s: string): string
  {
    if s == [] then "" else (if IsSpace(s[0]) then "" else [s[0]]) + NonSpace(s[1..])
  }

  lemma {:induction false} NonSpaceAppend(a: string, b: string)
    ensures NonSpace(a + b) == NonSpace(a) + NonSpace(b)
    decreases |a|
  {
    if a == [] {
      assert a + b == b;
    } else {
      assert (a + b)[1..] == a[1..] + b;
      NonSpaceAppend(a[1..], b);
    }
  }

  lemma {:induction false} NonSpaceOfRun(s: string)
    requires forall i :: 0 <= i < |s| ==> !IsSpace(s[i])
    ensures NonSpace(s) == s
    decreases |s|
  {
    if s != [] {
      NonSpaceOfRun(s[1..]);
    }
  }

  /** The words, laid end to end, are exactly the non-whitespace characters
      of the string in their original order. */
  lemma {:induction false} WordsCoverNonSpace(s: string)
    ensures Concat(Words(s)) == NonSpace(s)
    decreases |s|
  {
    if s == [] {
    } else if IsSpace(s[0]) {
      WordsCoverNonSpace(s[1..]);
    } else {
      var n := RunLength(s);
      WordsCoverNonSpace(s[n..]);
      assert s == s[..n] + s[n..];
      NonSpaceAppend(s[..n], s[n..]);
      NonSpaceOfRun(s[..n]);
    }
  }

  /** A string has no words exactly when it is all whitespace. */
  lemma {:induction false} NoWordsIffBlank(s: string)
    ensures Words(s) == [] <==> forall i :: 0 <= i < |s| ==> IsSpace(s[i])
    decreases |s|
  {
    if s != [] {
      NoWordsIffBlank(s[1..]);
      if IsSpace(s[0]) {
        assert forall i :: 1 <= i < |s| ==> s[i] == s[1..][i - 1];
      }
    }
  }
}
