/** The domain pattern both validators compile,
      ^[a-zA-Z0-9]([a-zA-Z0-9-]{0,61}[a-zA-Z0-9])?(\.[a-zA-Z]{2,})+$
    first read literally as a language (ghost predicates that follow the
    pattern's structure), then recognised by splitting on '.', and the two
    proved equal. */
module DomainPattern {
  import opened Ascii
  import opened GoStrings

  // ---------------------------------------------------------------------------
  // The pattern read literally

  /** `([a-zA-Z0-9-]{0,61}[a-zA-Z0-9])?` */
  ghost predicate InOptionalTail(g: string) {
    g == [] || (|g| <= 62 && IsAlnum(g[|g| - 1]) && forall j :: 0 <= j < |g| - 1 ==> IsLabelChar(g[j]))
  }

  /** `[a-zA-Z0-9]([a-zA-Z0-9-]{0,61}[a-zA-Z0-9])?` */
  ghost predicate InFirstLabel(h: string) {
    |h| >= 1 && IsAlnum(h[0]) && InOptionalTail(h[1..])
  }

  /** `\.[a-zA-Z]{2,}` */
  ghost predicate InTldGroup(g: string) {
    |g| >= 3 && g[0] == '.' && forall j :: 1 <= j < |g| ==> IsLetter(g[j])
  }

  /** `(\.[a-zA-Z]{2,})+` */
  ghost predicate InTldGroups(t: string)
    decreases |t|
  {
    InTldGroup(t) || exists k :: 0 < k < |t| && InTldGroup(t[..k]) && InTldGroups(t[k..])
  }

  /** The whole pattern, anchored at both ends: a first label followed by one
      or more dot groups. A match therefore starts with a letter or digit,
      holds a dot and is at least four characters long. */
  ghost predicate InDomainLanguage(d: string): (b: bool)
    ensures b ==> |d| >= 4 && IsAlnum(d[0]) && '.' in d
  {
    exists k :: 0 < k < |d| && InFirstLabel(d[..k]) && InTldGroups(d[k..])
  }

  // ---------------------------------------------------------------------------
  // The recogniser

  /** The part before the first dot: 1 to 63 characters of [A-Za-z0-9-]
      that neither start nor end with a hyphen. */
  predicate FirstLabelOk(p: string) {
    1 <= |p| <= 63 && p[0] != '-' && p[|p| - 1] != '-' && forall j :: 0 <= j < |p| ==> IsLabelChar(p[j])
  }

  /** A later part: at least two letters. */
  predicate TldLabelOk(p: string) {
    |p| >= 2 && forall j :: 0 <= j < |p| ==> IsLetter(p[j])
  }

  predicate AllTldLabels(parts: seq<string>) {
    forall k :: 0 <= k < |parts| ==> TldLabelOk(parts[k])
  }

  /** regexp.MustCompile(pattern).MatchString(d): at least two dot-separated
      parts, a valid first label, and letters-only later parts. */
  function MatchesDomainPattern(d: string): (matched: bool)
    ensures matched <==> InDomainLanguage(d)
  {
    PatternIsSplitShape(d);
    var parts := Split(d, '.');
    |parts| >= 2 && FirstLabelOk(parts[0]) && AllTldLabels(parts[1..])
  }

  // ---------------------------------------------------------------------------
  // Proof that the recogniser accepts the pattern's language

  lemma FirstLabelIff(h: string)
    ensures InFirstLabel(h) <==> FirstLabelOk(h)
  {
    if |h| >= 1 {
      var g := h[1..];
      if InFirstLabel(h) && g != [] {
        forall j | 0 <= j < |h| ensures IsLabelChar(h[j]) {
          if 0 < j < |h| - 1 {
            assert h[j] == g[j - 1];
          }
        }
      }
      if FirstLabelOk(h) && g != [] {
        forall j | 0 <= j < |g| - 1 ensures IsLabelChar(g[j]) {
          assert g[j] == h[j + 1];
        }
      }
    }
  }

  /** `(\.[a-zA-Z]{2,})+` matches t exactly when t starts with a dot and every
      dot-separated part after it is two or more letters. */
  lemma TldGroupsIff(t: string)
    ensures InTldGroups(t) <==> |t| >= 1 && t[0] == '.' && AllTldLabels(Split(t[1..], '.'))
  {
    if |t| >= 1 && t[0] == '.' && AllTldLabels(Split(t[1..], '.')) {
      TldGroupsFromLabels(t);
    }
    if InTldGroups(t) {
      LabelsFromTldGroups(t);
    }
  }

  lemma {:induction false} TldGroupsFromLabels(t: string)
    requires |t| >= 1 && t[0] == '.' && AllTldLabels(Split(t[1..], '.'))
    ensures InTldGroups(t)
    decreases |t|
  {
    var u := t[1..];
    var i := FirstIndex(u, '.');
    if i == |u| {
      SplitNoSep(u, '.');
      assert TldLabelOk(Split(u, '.')[0]);
      assert InTldGroup(t) by {
        forall j | 1 <= j < |t| ensures IsLetter(t[j]) {
          assert t[j] == u[j - 1];
        }
      }
    } else {
      SplitAt(u, '.', i);
      var parts := Split(u, '.');
      var rest := Split(u[i + 1..], '.');
      assert parts == [u[..i]] + rest;
      assert TldLabelOk(parts[0]);
      var k := i + 1;
      assert InTldGroup(t[..k]) by {
        forall j | 1 <= j < k ensures IsLetter(t[..k][j]) {
          assert t[..k][j] == u[..i][j - 1];
        }
      }
      var t' := t[k..];
      assert t'[1..] == u[i + 1..];
      assert AllTldLabels(rest) by {
        forall m | 0 <= m < |rest| ensures TldLabelOk(rest[m]) {
          assert rest[m] == parts[m + 1];
          assert TldLabelOk(parts[m + 1]);
        }
      }
      TldGroupsFromLabels(t');
      assert 0 < k < |t| && InTldGroup(t[..k]) && InTldGroups(t[k..]);
    }
  }

  lemma {:induction false} LabelsFromTldGroups(t: string)
    requires InTldGroups(t)
    ensures |t| >= 1 && t[0] == '.' && AllTldLabels(Split(t[1..], '.'))
    decreases |t|
  {
    if InTldGroup(t) {
      LabelsFromOneGroup(t);
    } else {
      var k :| 0 < k < |t| && InTldGroup(t[..k]) && InTldGroups(t[k..]);
      LabelsFromTldGroups(t[k..]);
      LabelsFromGroupAndRest(t, k);
    }
  }

  lemma LabelsFromOneGroup(t: string)
    requires InTldGroup(t)
    ensures |t| >= 1 && t[0] == '.' && AllTldLabels(Split(t[1..], '.'))
  {
    var u := t[1..];
    assert forall j :: 0 <= j < |u| ==> u[j] == t[j + 1];
    SplitNoSep(u, '.');
    assert TldLabelOk(u);
  }

  lemma LabelsFromGroupAndRest(t: string, k: nat)
    requires 0 < k < |t| && InTldGroup(t[..k])
    requires |t[k..]| >= 1 && t[k..][0] == '.' && AllTldLabels(Split(t[k..][1..], '.'))
    ensures |t| >= 1 && t[0] == '.' && AllTldLabels(Split(t[1..], '.'))
  {
    var g := t[..k][1..];
    forall j | 0 <= j < |g| ensures IsLetter(g[j]) {
      assert g[j] == t[..k][j + 1];
    }
    assert TldLabelOk(g);
    assert '.' !in g by {
      forall j | 0 <= j < |g| ensures g[j] != '.' {
        assert IsLetter(g[j]);
      }
    }
    var r := t[k..][1..];
    assert t[1..] == g + "." + r by {
      assert t[1..] == g + t[k..];
      assert t[k..] == "." + r;
    }
    SplitAfterLabel(g, r);
    LabelsCons(g, Split(r, '.'));
  }

  /** A dot-free label, a dot, then the rest: the split is the label followed
      by the split of the rest. */
  lemma SplitAfterLabel(g: string, r: string)
    requires '.' !in g
    ensures Split(g + "." + r, '.') == [g] + Split(r, '.')
  {
    var s := g + "." + r;
    assert s[..|g|] == g;
    assert s[|g| + 1..] == r;
    SplitAt(s, '.', |g|);
  }

  lemma LabelsCons(g: string, rest: seq<string>)
    requires TldLabelOk(g) && AllTldLabels(rest)
    ensures AllTldLabels([g] + rest)
  {
    forall m | 0 <= m < |[g] + rest| ensures TldLabelOk(([g] + rest)[m]) {
      if m > 0 {
        assert ([g] + rest)[m] == rest[m - 1];
      }
    }
  }

  /** The pattern matches d exactly when the recogniser's split shape holds. */
  lemma PatternIsSplitShape(d: string)
    ensures InDomainLanguage(d) <==>
      var parts := Split(d, '.');
      |parts| >= 2 && FirstLabelOk(parts[0]) && AllTldLabels(parts[1..])
  {
    var parts := Split(d, '.');
    if |parts| >= 2 && FirstLabelOk(parts[0]) && AllTldLabels(parts[1..]) {
      SplitShapeInLanguage(d);
    }
    if InDomainLanguage(d) {
      LanguageHasSplitShape(d);
    }
  }

  lemma SplitShapeInLanguage(d: string)
    requires var parts := Split(d, '.');
      |parts| >= 2 && FirstLabelOk(parts[0]) && AllTldLabels(parts[1..])
    ensures InDomainLanguage(d)
  {
    var parts := Split(d, '.');
    var i := FirstIndex(d, '.');
    assert i < |d|;
    SplitAt(d, '.', i);
    assert parts[0] == d[..i];
    FirstLabelIff(d[..i]);
    var t := d[i..];
    assert t[1..] == d[i + 1..];
    assert parts[1..] == Split(d[i + 1..], '.');
    TldGroupsIff(t);
    assert 0 < i < |d| && InFirstLabel(d[..i]) && InTldGroups(d[i..]);
  }

  lemma LanguageHasSplitShape(d: string)
    requires InDomainLanguage(d)
    ensures var parts := Split(d, '.');
      |parts| >= 2 && FirstLabelOk(parts[0]) && AllTldLabels(parts[1..])
  {
    var parts := Split(d, '.');
    var k :| 0 < k < |d| && InFirstLabel(d[..k]) && InTldGroups(d[k..]);
    FirstLabelIff(d[..k]);
    TldGroupsIff(d[k..]);
    assert '.' !in d[..k] by {
      forall j | 0 <= j < k ensures d[..k][j] != '.' {
        assert IsLabelChar(d[..k][j]);
      }
    }
    SplitAt(d, '.', k);
    assert d[k..][1..] == d[k + 1..];
    assert parts[1..] == Split(d[k + 1..], '.');
  }

  // ---------------------------------------------------------------------------
  // Consequences

  /** A matched string is made of [A-Za-z0-9.-] only, so it holds no ':' or '/'. */
  lemma MatchedCharset(d: string)
    requires MatchesDomainPattern(d)
    ensures IsHostString(d)
    ensures ':' !in d && '/' !in d
  {
    var parts := Split(d, '.');
    forall k, j | 0 <= k < |parts| && 0 <= j < |parts[k]| ensures IsHostChar(parts[k][j]) {
      if k > 0 {
        assert TldLabelOk(parts[1..][k - 1]);
      }
    }
    SplitCharClass(d, '.', IsHostChar);
  }
}
