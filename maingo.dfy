/** The older copy of the validators, main.go. Its URIValidator,
    isAlphaNumeric and PathValidator do what validator.go's do, which is
    proved; its IsSubdomain parses the input as it stands, and its
    DomainValidator stops after the domain pattern. */
module MainGo {
  import opened Wrappers
  import opened Ascii
  import opened GoStrings
  import opened GoUrl
  import opened DomainPattern
  import V = ValidatorGo

  // ---------------------------------------------------------------------------
  // IsSubdomain

  /** IsSubdomain: a parse error is passed on with false; otherwise the answer
      is whether the whole Host, port included, holds at least two dots. No
      scheme is put in front, so an input that parses with an empty Host is
      never a subdomain. */
  function IsSubdomain(lib: Stdlib, input: string): (r: (bool, Option<ParseError>))
    ensures r.1.Some? <==> lib.parse(input).Failure?
    ensures r.1.Some? ==> !r.0 && r.1.value == lib.parse(input).error
    ensures r.0 <==> lib.parse(input).Success? && Occurrences(lib.parse(input).value.host, '.') >= 2
    ensures lib.parse(input).Success? && lib.parse(input).value.host == "" ==> r == (false, None)
  {
    match lib.parse(input)
    case Failure(err) => (false, Some(err))
    case Success(parsedURL) => (|Split(parsedURL.host, '.')| > 2, None)
  }

  /** On an input that already carries an http:// or https:// scheme and whose
      Host holds no ':', IsSubdomain and validator.go's IsSubdomainWithScheme
      give the same answer. */
  lemma IsSubdomainAgreesWithScheme(lib: Stdlib, input: string)
    requires HasPrefix(input, "http://") || HasPrefix(input, "https://")
    requires lib.parse(input).Success? ==> ':' !in lib.parse(input).value.host
    ensures IsSubdomain(lib, input) == V.IsSubdomainWithScheme(lib, input)
  {
    assert V.WithDefaultScheme(input) == input;
    if lib.parse(input).Success? {
      var host := lib.parse(input).value.host;
      assert FirstIndex(host, ':') == |host|;
      assert host[..|host|] == host;
    }
  }

  // ---------------------------------------------------------------------------
  // isAlphaNumeric

  /** The range loop of isAlphaNumeric from position i on: it stops at the first
      character outside [a-zA-Z0-9-]. */
  function ScanFrom(s: string, i: nat): (ok: bool)
    requires i <= |s|
    ensures ok <==> forall j :: i <= j < |s| ==> IsLabelChar(s[j])
    decreases |s| - i
  {
    if i == |s| then true
    else if !IsLabelChar(s[i]) then false
    else ScanFrom(s, i + 1)
  }

  /** isAlphaNumeric: every character is in [a-zA-Z0-9-], so "" passes; the
      same answer as validator.go's copy. */
  function IsAlphaNumeric(s: string): (ok: bool)
    ensures ok <==> forall j :: 0 <= j < |s| ==> IsLabelChar(s[j])
    ensures ok == V.IsAlphaNumeric(s)
  {
    ScanFrom(s, 0)
  }

  // ---------------------------------------------------------------------------
  // URIValidator

  /** URIValidator in main.go's nesting: the host checks sit inside
      `Host != ""`, the length and label checks inside `ParseIP(host) == nil`.
      It decides every input as validator.go's copy does, so the properties
      proved there hold for this one. */
  function URIValidator(lib: Stdlib, s: string, requiredScheme: bool): (ok: bool)
    ensures ok == V.URIValidator(lib, s, requiredScheme)
  {
    if s == "" then false
    else match lib.parse(s)
      case Failure(_) => false
      case Success(parsedURI) =>
        if requiredScheme && parsedURI.scheme != "http" && parsedURI.scheme != "https" then false
        else if parsedURI.host != "" then
          var host := parsedURI.hostname;
          if '.' !in host || HasPrefix(host, ".") || HasSuffix(host, ".") then false
          else if !lib.isIP(host) then
            var labels := Split(host, '.');
            if |host| > 253 || |labels| < 2 then false
            else if !(forall k :: 0 <= k < |labels| ==> |labels[k]| <= 63 && IsAlphaNumeric(labels[k])) then false
            else if parsedURI.port != "" && !V.PortInRange(parsedURI.port) then false
            else ' ' !in parsedURI.path
          else false
        else false
  }

  // ---------------------------------------------------------------------------
  // PathValidator

  /** PathValidator as written: when url.Parse fails, u is nil and the
      logging call before the return reads u.Path, which panics. It behaves as
      validator.go's copy. */
  function PathValidator(lib: Stdlib, s: string): (r: Exec<bool>)
    ensures s == "" ==> r == Returns(false)
    ensures r == NilDereference <==> s != "" && lib.parse(s).Failure?
    ensures r.Returns? && s != "" ==>
      var u := lib.parse(s).value;
      (r.value <==> u.path != "" && u.scheme == "" && u.host == "" && u.rawQuery == "")
    ensures r == V.PathValidator(lib, s)
  {
    if |s| == 0 then Returns(false)
    else
      var parsed := lib.parse(s);
      if parsed.Failure? then NilDereference
      else
        var u := parsed.value;
        Returns(u.path != "" && u.scheme == "" && u.host == "" && u.rawQuery == "")
  }

  /** PathValidator with the panic replaced by the false its return expression
      intends: true exactly for a non-empty string that parses to a bare path. */
  function PathValidatorChecked(lib: Stdlib, s: string): (ok: bool)
    ensures ok <==>
      && s != ""
      && lib.parse(s).Success?
      && var u := lib.parse(s).value;
      && u.path != "" && u.scheme == "" && u.host == "" && u.rawQuery == ""
  {
    match PathValidator(lib, s)
    case Returns(b) => b
    case NilDereference => false
  }

  // ---------------------------------------------------------------------------
  // DomainValidator

  /** DomainValidator(domain): the length bounds and the domain pattern,
      nothing more. */
  function DomainValidator(domain: string): (ok: bool)
    ensures ok <==> 1 <= |domain| <= 253 && InDomainLanguage(domain)
  {
    if |domain| == 0 || |domain| > 253 then false
    else MatchesDomainPattern(domain)
  }

  /** Whatever validator.go's DomainValidator accepts, this one accepts. */
  lemma NewerDomainValidatorStricter(lib: Stdlib, domain: string, isSubDomain: bool)
    ensures V.DomainValidator(lib, domain, isSubDomain) ==> DomainValidator(domain)
  {
    if V.DomainValidator(lib, domain, isSubDomain) {
      assert 1 <= |domain| <= 253 && InDomainLanguage(domain);
    }
  }

  /** With url.Parse keeping a bare host, validator.go's DomainValidator is
      this one plus the subdomain test: at least two dots. */
  lemma NewerDomainValidatorAddsSubdomainTest(lib: Stdlib, domain: string, isSubDomain: bool)
    requires ParsesBareHost(lib)
    ensures V.DomainValidator(lib, domain, isSubDomain) <==>
      DomainValidator(domain) && Occurrences(domain, '.') >= 2
  {
    V.DomainValidatorExact(lib, domain, isSubDomain);
  }

  /** A valid first label and one letters-only label of two or more
      characters match the domain pattern. */
  lemma TwoLabelsMatch(a: string, b: string)
    requires FirstLabelOk(a) && TldLabelOk(b)
    ensures MatchesDomainPattern(a + "." + b)
  {
    var labels := [a, b];
    assert '.' !in a by {
      forall j | 0 <= j < |a| ensures a[j] != '.' {
        assert IsLabelChar(a[j]);
      }
    }
    assert '.' !in b by {
      forall j | 0 <= j < |b| ensures b[j] != '.' {
        assert IsLetter(b[j]);
      }
    }
    assert labels[1..] == [b];
    assert Join(labels, '.') == a + "." + b;
    SplitJoin(labels, '.');
  }

  /** A root domain such as "byeoungwoolee.com" passes main.go's
      DomainValidator but not validator.go's, which also asks for a
      subdomain; "test.byeoungwoolee.com" passes both. The strings are
      written below as pieces joined by `+`, which keeps the verifier from
      unfolding Split over a literal. */
  lemma RootDomainSeparatesCopies(lib: Stdlib)
    requires ParsesBareHost(lib)
    ensures DomainValidator("byeoungwoolee" + "." + "com")
    ensures !V.DomainValidator(lib, "byeoungwoolee" + "." + "com", true)
    ensures DomainValidator("test" + "." + "byeoungwoolee" + "." + "com")
    ensures V.DomainValidator(lib, "test" + "." + "byeoungwoolee" + "." + "com", true)
  {
    TwoLabelsMatch("byeoungwoolee", "com");
    V.OneDot("byeoungwoolee", "com");
    NewerDomainValidatorAddsSubdomainTest(lib, "byeoungwoolee" + "." + "com", true);
    V.DomainValidatorTable(lib);
    NewerDomainValidatorStricter(lib, "test" + "." + "byeoungwoolee" + "." + "com", true);
  }
}
