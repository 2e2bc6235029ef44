/** The newer copy of the validators, validator.go. Every function here is a
    pure predicate over its input; url.Parse and net.ParseIP come in through
    the `lib` parameter. */
module ValidatorGo {
  import opened Wrappers
  import opened Ascii
  import opened GoStrings
  import opened GoStrconv
  import opened GoUrl
  import opened DomainPattern

  // ---------------------------------------------------------------------------
  // Subdomain classifiers

  /** IsSubdomainWithoutScheme: more than two dot-separated parts, that is, at
      least two dots anywhere in the raw input; the error is always nil. */
  function IsSubdomainWithoutScheme(input: string): (r: (bool, Option<ParseError>))
    ensures r.1 == None
    ensures r.0 <==> Occurrences(input, '.') >= 2
  {
    (|Split(input, '.')| > 2, None)
  }

  lemma OneDot(a: string, b: string)
    requires '.' !in a && '.' !in b
    ensures Occurrences(a + "." + b, '.') == 1
  {
    OccurrencesAppend(a + ".", b, '.');
    OccurrencesAppend(a, ".", '.');
  }

  lemma TwoDots(a: string, b: string, c: string)
    requires '.' !in a && '.' !in b && '.' !in c
    ensures Occurrences(a + "." + b + "." + c, '.') == 2
  {
    OneDot(a, b);
    OccurrencesAppend(a + "." + b + ".", c, '.');
    OccurrencesAppend(a + "." + b, ".", '.');
  }

  /** The rows of TestIsSubdomain, which call IsSubdomainWithoutScheme:
        "https://test.byeoungwoolee.com"  true
        "https://byeoungwoolee.com"       false
        "byeoungwoolee.com"               false
        "test.byeoungwoolee.com"          true
      Each string is written below as its dot-free pieces joined by dots,
      which keeps the verifier from unfolding Split over a literal. A scheme
      in front does not matter because no dot is in it. */
  lemma IsSubdomainWithoutSchemeTable()
    ensures IsSubdomainWithoutScheme("https://test" + "." + "byeoungwoolee" + "." + "com").0
    ensures !IsSubdomainWithoutScheme("https://byeoungwoolee" + "." + "com").0
    ensures !IsSubdomainWithoutScheme("byeoungwoolee" + "." + "com").0
    ensures IsSubdomainWithoutScheme("test" + "." + "byeoungwoolee" + "." + "com").0
  {
    TwoDots("https://test", "byeoungwoolee", "com");
    OneDot("https://byeoungwoolee", "com");
    OneDot("byeoungwoolee", "com");
    TwoDots("test", "byeoungwoolee", "com");
  }

  /** Three labels make a subdomain; two labels or one do not. */
  lemma IsSubdomainWithoutSchemeLabelCounts(a: string, b: string, c: string)
    requires '.' !in a && '.' !in b && '.' !in c
    ensures IsSubdomainWithoutScheme(a + "." + b + "." + c).0
    ensures !IsSubdomainWithoutScheme(a + "." + b).0
    ensures !IsSubdomainWithoutScheme(a).0
  {
    TwoDots(a, b, c);
    OneDot(a, b);
  }

  /** The one-shot normalisation of IsSubdomainWithScheme: "http://" is put in
      front unless the input already starts with "http://" or "https://". */
  function WithDefaultScheme(input: string): (url: string)
    ensures HasPrefix(input, "http://") || HasPrefix(input, "https://") ==> url == input
    ensures !HasPrefix(input, "http://") && !HasPrefix(input, "https://") ==> url == "http://" + input
    ensures HasPrefix(url, "http://") || HasPrefix(url, "https://")
    ensures HasSuffix(url, input) && |url| <= |input| + 7
  {
    if !HasPrefix(input, "http://") && !HasPrefix(input, "https://") then "http://" + input else input
  }

  /** IsSubdomainWithScheme: after the normalisation, a parse error is passed
      on with false; otherwise the answer is whether the Host, cut at its first
      ':', holds at least two dots. */
  function IsSubdomainWithScheme(lib: Stdlib, input: string): (r: (bool, Option<ParseError>))
    ensures r.1.Some? <==> lib.parse(WithDefaultScheme(input)).Failure?
    ensures r.1.Some? ==> !r.0 && r.1.value == lib.parse(WithDefaultScheme(input)).error
    ensures r.0 <==>
      var parsed := lib.parse(WithDefaultScheme(input));
      parsed.Success? &&
      var host := parsed.value.host;
      Occurrences(host[..FirstIndex(host, ':')], '.') >= 2
  {
    var url := WithDefaultScheme(input);
    match lib.parse(url)
    case Failure(err) => (false, Some(err))
    case Success(parsed) =>
      SplitHead(parsed.host, ':');
      var host := Split(parsed.host, ':')[0];
      (|Split(host, '.')| > 2, None)
  }

  // ---------------------------------------------------------------------------
  // Label checks

  /** isAlphaNumeric: every character is in [a-zA-Z0-9-]; true for "". */
  function IsAlphaNumeric(s: string): (ok: bool)
    ensures ok <==> forall j :: 0 <= j < |s| ==> IsLabelChar(s[j])
  {
    if s == [] then true
    else if !IsLabelChar(s[0]) then false
    else IsAlphaNumeric(s[1..])
  }

  /** The loop over the labels of the host in URIValidator: it stops at the
      first label longer than 63 characters or outside [a-zA-Z0-9-]. */
  function LabelsPass(labels: seq<string>): (ok: bool)
    ensures ok <==> forall k :: 0 <= k < |labels| ==> |labels[k]| <= 63 && IsAlphaNumeric(labels[k])
  {
    if labels == [] then true
    else if |labels[0]| > 63 || !IsAlphaNumeric(labels[0]) then false
    else LabelsPass(labels[1..])
  }

  /** The port test: strconv.Atoi must succeed with a value in 1..65535. */
  function PortInRange(port: string): (ok: bool)
    ensures ok <==> Atoi(port).Some? && 1 <= Atoi(port).value <= 65535
    ensures |port| >= 1 && AllDigits(port) ==> (ok <==> 1 <= DecimalValue(port) <= 65535)
  {
    match Atoi(port)
    case None => false
    case Some(p) => 1 <= p <= 65535
  }

  /** A port written in decimal is accepted exactly when it is in 1..65535. */
  lemma PortInRangeDecimal(n: nat)
    ensures PortInRange(Itoa(n)) <==> 1 <= n <= 65535
  {
    DecimalValueItoa(n);
  }

  // ---------------------------------------------------------------------------
  // URIValidator

  /** URIValidator, branch by branch as the source takes them. */
  function URIValidator(lib: Stdlib, s: string, requiredScheme: bool): (ok: bool)
    ensures s == "" || lib.parse(s).Failure? ==> !ok
    ensures ok ==> requiredScheme ==> lib.parse(s).value.scheme in {"http", "https"}
    ensures ok ==> lib.parse(s).value.host != ""
    ensures ok ==> var h := lib.parse(s).value.hostname; '.' in h && h[0] != '.' && h[|h| - 1] != '.'
    ensures ok ==> !lib.isIP(lib.parse(s).value.hostname) && |lib.parse(s).value.hostname| <= 253
    ensures ok ==> ' ' !in lib.parse(s).value.path
  {
    if s == "" then false
    else match lib.parse(s)
      case Failure(_) => false
      case Success(u) =>
        if requiredScheme && !(u.scheme == "http" || u.scheme == "https") then false
        else if u.host == "" then false
        else
          var host := u.hostname;
          if '.' !in host || HasPrefix(host, ".") || HasSuffix(host, ".") then false
          else if lib.isIP(host) then false
          else if |host| > 253 || |Split(host, '.')| < 2 then false
          else if !LabelsPass(Split(host, '.')) then false
          else if u.port != "" && !PortInRange(u.port) then false
          else
            HasPrefixChar(host, '.');
            HasSuffixChar(host, '.');
            ' ' !in u.path
  }

  /** A label as URIValidator wants it: at most 63 characters of [a-zA-Z0-9-]. */
  ghost predicate LabelAccepted(part: string) {
    |part| <= 63 && forall j :: 0 <= j < |part| ==> IsLabelChar(part[j])
  }

  /** The host rules of URIValidator stated on their own, without the
      label-count test. */
  ghost predicate HostnameAccepted(lib: Stdlib, h: string) {
    && '.' in h && h[0] != '.' && h[|h| - 1] != '.'
    && !lib.isIP(h)
    && |h| <= 253
    && forall k :: 0 <= k < |Split(h, '.')| ==> LabelAccepted(Split(h, '.')[k])
  }

  ghost predicate PortAccepted(port: string) {
    port == "" || (Atoi(port).Some? && 1 <= Atoi(port).value <= 65535)
  }

  lemma LabelsPassIff(labels: seq<string>)
    ensures LabelsPass(labels) <==> forall k :: 0 <= k < |labels| ==> LabelAccepted(labels[k])
  {
  }

  /** Once the host holds a dot, it has at least two labels: the `< 2` test of
      URIValidator never fires. */
  lemma LabelCountTestRedundant(h: string)
    requires '.' in h
    ensures |Split(h, '.')| >= 2
  {
  }

  /** URIValidator is exactly the conjunction of its checks. */
  lemma URIValidatorIsConjunction(lib: Stdlib, s: string, requiredScheme: bool)
    ensures URIValidator(lib, s, requiredScheme) <==>
      && s != ""
      && lib.parse(s).Success?
      && var u := lib.parse(s).value;
      && (requiredScheme ==> u.scheme == "http" || u.scheme == "https")
      && u.host != ""
      && HostnameAccepted(lib, u.hostname)
      && PortAccepted(u.port)
      && ' ' !in u.path
  {
    if s != "" && lib.parse(s).Success? {
      var u := lib.parse(s).value;
      var h := u.hostname;
      if '.' in h {
        LabelCountTestRedundant(h);
        HasPrefixChar(h, '.');
        HasSuffixChar(h, '.');
        LabelsPassIff(Split(h, '.'));
      }
    }
  }

  lemma SplitDoubleDot(first: string, last: string)
    requires '.' !in first && '.' !in last
    ensures Split(first + ".." + last, '.') == [first, "", last]
  {
    var labels := [first, "", last];
    calc {
      Join(labels, '.');
      first + ['.'] + Join(labels[1..], '.');
      { assert labels[1..][1..] == [last]; }
      first + ['.'] + ([] + ['.'] + last);
      first + ".." + last;
    }
    SplitJoin(labels, '.');
  }

  lemma DoubleDotHostnameAccepted(lib: Stdlib, first: string, last: string)
    requires 1 <= |first| <= 63 && 1 <= |last| <= 63
    requires IsAlphaNumeric(first) && IsAlphaNumeric(last)
    requires !lib.isIP(first + ".." + last)
    ensures HostnameAccepted(lib, first + ".." + last)
  {
    var h := first + ".." + last;
    assert '.' !in first && '.' !in last;
    SplitDoubleDot(first, last);
    var labels := Split(h, '.');
    assert forall k :: 0 <= k < |labels| ==> LabelAccepted(labels[k]);
    assert h[|first|] == '.';
    assert h[0] == first[0] && h[|h| - 1] == last[|last| - 1];
  }

  /** An empty label inside the host, as in "a..com", is accepted: nothing
      asks a label to be non-empty. */
  lemma EmptyInteriorLabelAccepted(lib: Stdlib, s: string, first: string, last: string)
    requires s != ""
    requires 1 <= |first| <= 63 && 1 <= |last| <= 63
    requires IsAlphaNumeric(first) && IsAlphaNumeric(last)
    requires var h := first + ".." + last; lib.parse(s) == Success(URL("http", h, h, "", "/", "")) && !lib.isIP(h)
    ensures URIValidator(lib, s, true)
  {
    DoubleDotHostnameAccepted(lib, first, last);
    URIValidatorIsConjunction(lib, s, true);
  }

  // ---------------------------------------------------------------------------
  // PathValidator

  /** PathValidator as written: when url.Parse fails, u is nil and the
      logging call before the return reads u.Path, which panics. */
  function PathValidator(lib: Stdlib, s: string): (r: Exec<bool>)
    ensures s == "" ==> r == Returns(false)
    ensures r == NilDereference <==> s != "" && lib.parse(s).Failure?
    ensures r.Returns? && s != "" ==>
      var u := lib.parse(s).value;
      (r.value <==> u.path != "" && u.scheme == "" && u.host == "" && u.rawQuery == "")
  {
    if |s| == 0 then Returns(false)
    else match lib.parse(s)
      case Failure(_) => NilDereference
      case Success(u) => Returns(u.path != "" && u.scheme == "" && u.host == "" && u.rawQuery == "")
  }

  /** PathValidator as its return expression intends it: a parse error gives
      false. It agrees with the source wherever the source does not panic. */
  function PathValidatorChecked(lib: Stdlib, s: string): (ok: bool)
    ensures s == "" || lib.parse(s).Failure? ==> !ok
    ensures ok ==> var u := lib.parse(s).value; u.path != "" && u.scheme == "" && u.host == "" && u.rawQuery == ""
    ensures PathValidator(lib, s).Returns? ==> PathValidator(lib, s).value == ok
  {
    s != "" && match lib.parse(s)
      case Failure(_) => false
      case Success(u) => u.path != "" && u.scheme == "" && u.host == "" && u.rawQuery == ""
  }

  // ---------------------------------------------------------------------------
  // DomainValidator

  /** DomainValidator(domain, isSubDomain): the length bounds, the domain
      pattern, then IsSubdomainWithScheme on the host. isSubDomain is only
      logged. */
  function DomainValidator(lib: Stdlib, domain: string, isSubDomain: bool): (ok: bool)
    ensures |domain| == 0 || |domain| > 253 ==> !ok
    ensures ok ==> InDomainLanguage(domain)
  {
    if |domain| == 0 || |domain| > 253 then false
    else if !MatchesDomainPattern(domain) then false
    else
      var domainData :=
        if HasPrefix(domain, "http://") || HasPrefix(domain, "https://") then
          match lib.parse(domain)
          case Failure(_) => None
          case Success(parsedUrl) => Some(parsedUrl.host)
        else Some(domain);
      match domainData
      case None => false
      case Some(data) =>
        var sub := IsSubdomainWithScheme(lib, data);
        sub.1.None? && sub.0
  }

  /** The result does not depend on isSubDomain. */
  lemma DomainValidatorIgnoresFlag(lib: Stdlib, domain: string)
    ensures DomainValidator(lib, domain, true) == DomainValidator(lib, domain, false)
  {
  }

  /** No string the pattern accepts starts with a scheme, so the url.Parse
      branch of DomainValidator is never taken and domainData is the input. */
  lemma SchemeBranchUnreachable(domain: string)
    requires MatchesDomainPattern(domain)
    ensures !HasPrefix(domain, "http://") && !HasPrefix(domain, "https://")
  {
    MatchedCharset(domain);
  }

  /** For a string the pattern accepts, DomainValidator's answer is
      IsSubdomainWithScheme's answer on that same string. */
  lemma DomainValidatorOnMatch(lib: Stdlib, domain: string, isSubDomain: bool)
    requires 1 <= |domain| <= 253 && MatchesDomainPattern(domain)
    ensures DomainValidator(lib, domain, isSubDomain) ==
      (IsSubdomainWithScheme(lib, domain).1.None? && IsSubdomainWithScheme(lib, domain).0)
  {
    SchemeBranchUnreachable(domain);
  }

  /** With url.Parse keeping a bare host, IsSubdomainWithScheme on a bare
      host counts its dots. */
  lemma BareHostSubdomain(lib: Stdlib, host: string)
    requires ParsesBareHost(lib)
    requires IsHostString(host) && !HasPrefix(host, "http://") && !HasPrefix(host, "https://")
    ensures IsSubdomainWithScheme(lib, host) == (Occurrences(host, '.') >= 2, None)
  {
    var url := "http://" + host;
    assert WithDefaultScheme(host) == url;
    assert lib.parse(url).Success? && lib.parse(url).value.host == host;
    assert ':' !in host;
    assert FirstIndex(host, ':') == |host|;
    assert host[..|host|] == host;
  }

  /** With url.Parse keeping a bare host as the Host of "http://" + host,
      DomainValidator accepts exactly the strings of 1 to 253 characters that
      match the pattern and hold at least two dots (three or more labels). */
  lemma DomainValidatorExact(lib: Stdlib, domain: string, isSubDomain: bool)
    requires ParsesBareHost(lib)
    ensures DomainValidator(lib, domain, isSubDomain) <==>
      1 <= |domain| <= 253 && InDomainLanguage(domain) && Occurrences(domain, '.') >= 2
  {
    if 1 <= |domain| <= 253 && MatchesDomainPattern(domain) {
      DomainValidatorOnMatch(lib, domain, isSubDomain);
      SchemeBranchUnreachable(domain);
      MatchedCharset(domain);
      BareHostSubdomain(lib, domain);
    }
  }

  /** A string holding a character outside [A-Za-z0-9.-], such as the ':' of
      a scheme or a space, is never accepted. */
  lemma ForeignCharRejected(lib: Stdlib, domain: string, isSubDomain: bool, j: nat)
    requires j < |domain| && !IsHostChar(domain[j])
    ensures !DomainValidator(lib, domain, isSubDomain)
  {
    if MatchesDomainPattern(domain) {
      MatchedCharset(domain);
    }
  }

  /** A valid first label followed by two letters-only labels of two or more
      characters matches the domain pattern. */
  lemma ThreeLabelsMatch(a: string, b: string, c: string)
    requires FirstLabelOk(a) && TldLabelOk(b) && TldLabelOk(c)
    ensures MatchesDomainPattern(a + "." + b + "." + c)
  {
    var labels := [a, b, c];
    assert '.' !in a by {
      forall j | 0 <= j < |a| ensures a[j] != '.' {
        assert IsLabelChar(a[j]);
      }
    }
    assert '.' !in b by {
      forall j | 0 <= j < |b| ensures b[j] != '.' {
        assert IsLetter(b[j]);
      }
    }
    assert '.' !in c by {
      forall j | 0 <= j < |c| ensures c[j] != '.' {
        assert IsLetter(c[j]);
      }
    }
    assert labels[1..][1..] == [c];
    assert Join(labels[1..], '.') == b + "." + c;
    assert Join(labels, '.') == a + "." + (b + "." + c);
    assert a + "." + (b + "." + c) == a + "." + b + "." + c;
    SplitJoin(labels, '.');
    assert labels[1..] == [b, c];
  }

  /** "test.byeoungwoolee.com", written as its labels joined by dots,
      matches the domain pattern. */
  lemma TestHostMatches()
    ensures MatchesDomainPattern("test" + "." + "byeoungwoolee" + "." + "com")
  {
    ThreeLabelsMatch("test", "byeoungwoolee", "com");
  }

  /** The rows of TestDomainValidator, each with the flag the test passes:
        "https://test.byeoungwoolee.com", false  ->  false
        "https://byeoungwoolee.com", false       ->  false
        "byeoungwoolee.com", false               ->  false
        "test.byeoungwoolee.com", true           ->  true
      Each string is written below as pieces joined by `+`, which keeps the
      verifier from unfolding Split over a literal. */
  lemma DomainValidatorTable(lib: Stdlib)
    requires ParsesBareHost(lib)
    ensures !DomainValidator(lib, "https:" + "//test" + "." + "byeoungwoolee" + "." + "com", false)
    ensures !DomainValidator(lib, "https:" + "//byeoungwoolee" + "." + "com", false)
    ensures !DomainValidator(lib, "byeoungwoolee" + "." + "com", false)
    ensures DomainValidator(lib, "test" + "." + "byeoungwoolee" + "." + "com", true)
  {
    ForeignCharRejected(lib, "https:" + "//test" + "." + "byeoungwoolee" + "." + "com", false, 5);
    ForeignCharRejected(lib, "https:" + "//byeoungwoolee" + "." + "com", false, 5);
    OneDot("byeoungwoolee", "com");
    DomainValidatorExact(lib, "byeoungwoolee" + "." + "com", false);
    TwoDots("test", "byeoungwoolee", "com");
    TestHostMatches();
    DomainValidatorExact(lib, "test" + "." + "byeoungwoolee" + "." + "com", true);
  }

  /** A string with spaces, "not a domain", is not a domain. */
  lemma SpacedStringRejected(lib: Stdlib, isSubDomain: bool)
    ensures !DomainValidator(lib, "not" + " " + "a" + " " + "domain", isSubDomain)
  {
    ForeignCharRejected(lib, "not" + " " + "a" + " " + "domain", isSubDomain, 3);
  }
}
