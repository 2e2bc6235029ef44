/** The parts of Go's `strings` package that the validators use, on one-character
    separators: strings.Split, strings.HasPrefix and strings.HasSuffix, with
    strings.Join as the inverse of Split. */
module GoStrings {

  /** Number of occurrences of `c` in `s` (strings.Count with a one-character separator). */
  function Occurrences(s: string, c: char): (n: nat)
    ensures n <= |s|
    ensures n == 0 <==> c !in s
  {
    if s == [] then 0 else (if s[0] == c then 1 else 0) + Occurrences(s[1..], c)
  }

  lemma {:induction false} OccurrencesAppend(a: string, b: string, c: char)
    ensures Occurrences(a + b, c) == Occurrences(a, c) + Occurrences(b, c)
  {
    if a == [] {
      assert a + b == b;
    } else {
      assert (a + b)[1..] == a[1..] + b;
      OccurrencesAppend(a[1..], b, c);
    }
  }

  /** Position of the first `c` in `s`, or |s| when there is none
      (strings.IndexByte, which answers -1 instead of |s|). */
  function FirstIndex(s: string, c: char): (i: nat)
    ensures i <= |s|
    ensures i < |s| ==> s[i] == c
    ensures forall j :: 0 <= j < i ==> s[j] != c
  {
    if s == [] || s[0] == c then 0 else 1 + FirstIndex(s[1..], c)
  }

  /** strings.Split(s, sep) for a one-character separator: the pieces between
      the separators, one more piece than there are separators. */
  function Split(s: string, sep: char): (parts: seq<string>)
    ensures |parts| == Occurrences(s, sep) + 1
  {
    if s == [] then [""]
    else
      var rest := Split(s[1..], sep);
      if s[0] == sep then [""] + rest else [[s[0]] + rest[0]] + rest[1..]
  }

  /** No piece holds the separator. */
  lemma {:induction false} SplitPiecesFree(s: string, sep: char)
    ensures forall k :: 0 <= k < |Split(s, sep)| ==> sep !in Split(s, sep)[k]
  {
    if s != [] {
      SplitPiecesFree(s[1..], sep);
      var rest := Split(s[1..], sep);
      if s[0] != sep {
        assert sep !in rest[0];
        assert Split(s, sep)[1..] == rest[1..];
      }
    }
  }

  /** Without a separator the string is its own single piece. */
  lemma {:induction false} SplitNoSep(s: string, sep: char)
    requires sep !in s
    ensures Split(s, sep) == [s]
  {
    if s != [] {
      assert sep !in s[1..];
      SplitNoSep(s[1..], sep);
      assert [s[0]] + s[1..] == s;
    }
  }

  /** Split cuts at the first separator. */
  lemma {:induction false} SplitAt(s: string, sep: char, i: nat)
    requires i < |s| && s[i] == sep && sep !in s[..i]
    ensures Split(s, sep) == [s[..i]] + Split(s[i + 1..], sep)
  {
    if i == 0 {
      assert s[..0] == "";
    } else {
      var t := s[1..];
      assert t[..i - 1] == s[1..i];
      assert sep !in t[..i - 1] by {
        assert t[..i - 1] == s[..i][1..];
      }
      SplitAt(t, sep, i - 1);
      assert t[i..] == s[i + 1..];
      assert s[0] != sep by {
        assert s[..i][0] == s[0];
      }
      assert [s[0]] + s[1..i] == s[..i];
    }
  }

  /** The first piece of a split is everything before the first separator. */
  lemma {:induction false} SplitHead(s: string, sep: char)
    ensures Split(s, sep)[0] == s[..FirstIndex(s, sep)]
  {
    if s != [] && s[0] != sep {
      SplitHead(s[1..], sep);
      var i := FirstIndex(s[1..], sep);
      assert [s[0]] + s[1..][..i] == s[..i + 1];
    }
  }

  /** strings.Join(parts, string(sep)). */
  function Join(parts: seq<string>, sep: char): string
  {
    if |parts| == 0 then ""
    else if |parts| == 1 then parts[0]
    else parts[0] + [sep] + Join(parts[1..], sep)
  }

  /** Putting a character in front of the first piece puts it in front of
      the join. */
  lemma JoinPrepend(c: char, parts: seq<string>, sep: char)
    requires |parts| >= 1
    ensures Join([[c] + parts[0]] + parts[1..], sep) == [c] + Join(parts, sep)
  {
    var parts' := [[c] + parts[0]] + parts[1..];
    if |parts| > 1 {
      assert parts'[1..] == parts[1..];
    }
  }

  /** Joining the pieces of a split gives back the string. */
  lemma {:induction false} JoinSplit(s: string, sep: char)
    ensures Join(Split(s, sep), sep) == s
  {
    if s != [] {
      var rest := Split(s[1..], sep);
      JoinSplit(s[1..], sep);
      if s[0] == sep {
        assert Join(Split(s, sep), sep) == [sep] + Join(rest, sep);
      } else {
        JoinPrepend(s[0], rest, sep);
      }
      assert [s[0]] + s[1..] == s;
    }
  }

  /** Splitting a join of separator-free pieces gives back the pieces. */
  lemma {:induction false} SplitJoin(parts: seq<string>, sep: char)
    requires |parts| >= 1
    requires forall k :: 0 <= k < |parts| ==> sep !in parts[k]
    ensures Split(Join(parts, sep), sep) == parts
  {
    if |parts| > 1 {
      var s := Join(parts, sep);
      var rest := Join(parts[1..], sep);
      assert s == parts[0] + [sep] + rest;
      var i := |parts[0]|;
      assert s[..i] == parts[0];
      assert s[i + 1..] == rest;
      SplitAt(s, sep, i);
      SplitJoin(parts[1..], sep);
    } else {
      SplitNoSep(parts[0], sep);
    }
  }

  /** If the separator and every character of every piece have property P,
      so does every character of their join. */
  lemma {:induction false} JoinCharClass(parts: seq<string>, sep: char, P: char -> bool)
    requires P(sep)
    requires forall k, j :: 0 <= k < |parts| && 0 <= j < |parts[k]| ==> P(parts[k][j])
    ensures forall j :: 0 <= j < |Join(parts, sep)| ==> P(Join(parts, sep)[j])
  {
    if |parts| > 1 {
      JoinCharClass(parts[1..], sep, P);
      var rest := Join(parts[1..], sep);
      var s := Join(parts, sep);
      assert s == parts[0] + [sep] + rest;
      forall j | 0 <= j < |s| ensures P(s[j]) {
        if j < |parts[0]| {
          assert s[j] == parts[0][j];
        } else if j > |parts[0]| {
          assert s[j] == rest[j - |parts[0]| - 1];
        }
      }
    } else if |parts| == 1 {
      assert Join(parts, sep) == parts[0];
    }
  }

  /** If the separator and every character of every piece of a split have
      property P, so does every character of the string. */
  lemma SplitCharClass(s: string, sep: char, P: char -> bool)
    requires P(sep)
    requires forall k, j :: 0 <= k < |Split(s, sep)| && 0 <= j < |Split(s, sep)[k]| ==> P(Split(s, sep)[k][j])
    ensures forall j :: 0 <= j < |s| ==> P(s[j])
  {
    JoinSplit(s, sep);
    JoinCharClass(Split(s, sep), sep, P);
  }

  /** strings.HasPrefix: `prefix` is an initial segment of `s`, so `s` is
      `prefix` followed by the rest. */
  predicate HasPrefix(s: string, prefix: string): (b: bool)
    ensures b <==> |prefix| <= |s| && forall j :: 0 <= j < |prefix| ==> s[j] == prefix[j]
    ensures b ==> s == prefix + s[|prefix|..]
  {
    |prefix| <= |s| && s[..|prefix|] == prefix
  }

  /** strings.HasSuffix: `suffix` is a final segment of `s`, so `s` is the
      rest followed by `suffix`. */
  predicate HasSuffix(s: string, suffix: string): (b: bool)
    ensures b <==> |suffix| <= |s| && forall j :: 0 <= j < |suffix| ==> s[|s| - |suffix| + j] == suffix[j]
    ensures b ==> s == s[..|s| - |suffix|] + suffix
  {
    |suffix| <= |s| && s[|s| - |suffix|..] == suffix
  }

  lemma HasPrefixChar(s: string, c: char)
    requires |s| >= 1
    ensures HasPrefix(s, [c]) <==> s[0] == c
  {
    if s[0] == c {
      assert s[..1] == [c];
    }
  }

  lemma HasSuffixChar(s: string, c: char)
    requires |s| >= 1
    ensures HasSuffix(s, [c]) <==> s[|s| - 1] == c
  {
    if s[|s| - 1] == c {
      assert s[|s| - 1..] == [c];
    }
  }
}
