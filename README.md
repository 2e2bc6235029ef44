# Host, URI and path validators — a Dafny model

The repository holds hand-written string predicates that decide whether a
string is an acceptable domain name, URI or bare path, and whether a host is a
subdomain (three or more dot-separated labels). They exist in two copies:
`validator.go`, the newer one, and `main.go`, the older one. Both declare the
same names, so they are modelled as two modules:

- `ValidatorGo` (`validatorgo.dfy`): `IsSubdomainWithoutScheme`,
  `IsSubdomainWithScheme`, `URIValidator`, `isAlphaNumeric`, `PathValidator`
  and the two-argument `DomainValidator`.
- `MainGo` (`maingo.dfy`): `IsSubdomain`, `URIValidator`, `isAlphaNumeric`,
  `PathValidator` and the one-argument `DomainValidator`.

Every validator is a pure function of its input. The Go library calls they make
are modelled in supporting modules:

- `GoUrl` (`gourl.dfy`): `url.Parse` and `net.ParseIP` are the two fields of a
  `Stdlib` value passed to every validator that calls `url.Parse` or
  `net.ParseIP`. `url.Parse` returns either the `*url.Error` it reports,
  whose content the model leaves to `Stdlib`, or a `URL` record with the
  scheme, Host, `Hostname()`, `Port()`, path and raw query. Nothing is assumed about them, except in the lemmas that name the
  assumption `ParsesBareHost`: for a string `s` over `[A-Za-z0-9.-]`, parsing
  `"http://" + s` succeeds with Host `s`.
- `GoStrings` (`gostrings.dfy`): `strings.Split` with a one-character
  separator, its inverse `Join`, `HasPrefix`, `HasSuffix` and dot counting.
- `GoStrconv` (`gostrconv.dfy`): `strconv.Atoi` on decimal strings with an
  optional sign.
- `DomainPattern` (`domainpattern.dfy`): the domain pattern both copies compile,
  `^[a-zA-Z0-9]([a-zA-Z0-9-]{0,61}[a-zA-Z0-9])?(\.[a-zA-Z]{2,})+$`. It is read
  literally as a language (`InDomainLanguage`). It is recognised by splitting on
  `'.'` (`MatchesDomainPattern`). The two are proved equal.

What the proofs establish, in the system's terms:

- `IsSubdomainWithoutScheme` says "subdomain" exactly when the input holds two
  or more dots, and never returns an error.
- `IsSubdomainWithScheme` fails only when the parse fails. Otherwise it counts
  the dots of the Host cut at its first `':'`.
- `URIValidator` is exactly the conjunction of its checks. Its `< 2` label
  count test can never fire. An empty label inside the host (`a..com`) passes.
  A port is accepted exactly when its decimal value is in 1..65535. The
  `main.go` copy decides every input the same way.
- The newer `DomainValidator` ignores its `isSubDomain` argument. Its
  `http://` branch is unreachable. Under `ParsesBareHost` it accepts exactly
  the strings of 1 to 253 characters that match the pattern and hold at least
  two dots. The older `DomainValidator` is the pattern and the length bounds
  alone, so the newer one is strictly stronger.
- Both `PathValidator`s dereference a nil URL when the parse fails. They are
  modelled as written, which ends in `NilDereference`. A corrected version,
  which returns false, is proved to agree with them everywhere else.

## Model

| member | source | states |
|---|---|---|
| GoStrings.Split | validator.go:63 | strings.Split on '.' gives one more part than there are dots |
| GoStrings.JoinSplit | validator.go:63 | joining the parts of a split with the separator gives back the string |
| GoStrings.SplitJoin | validator.go:91 | splitting a join of separator-free parts gives back those parts |
| GoStrings.HasPrefix | validator.go:74 | true exactly when prefix is no longer than s and agrees with s character by character, so s is prefix followed by the rest |
| GoStrings.HasSuffix | validator.go:150 | true exactly when suffix is no longer than s and agrees with the last characters of s, so s is the rest followed by suffix |
| GoStrings.SplitHead | validator.go:88 | the first part of a split on ':' is the string before its first ':' |
| GoStrconv.Atoi | validator.go:173 | Atoi succeeds exactly on an optionally signed non-empty digit string, and a digit string gives its decimal value |
| GoStrconv.AtoiItoa | validator.go:173 | Atoi reads back the decimal spelling of every natural number |
| DomainPattern.InDomainLanguage | validator.go:243 | the pattern read literally: a prefix in `[a-zA-Z0-9]([a-zA-Z0-9-]{0,61}[a-zA-Z0-9])?` followed by one or more `\.[a-zA-Z]{2,}` groups to the end; a match is at least four characters, starts with a letter or digit and holds a dot |
| DomainPattern.MatchesDomainPattern | validator.go:243 | the split-based recogniser accepts exactly the strings in the pattern's language |
| DomainPattern.FirstLabelIff | validator.go:243 | `[a-zA-Z0-9]([a-zA-Z0-9-]{0,61}[a-zA-Z0-9])?` matches exactly 1 to 63 characters of [A-Za-z0-9-] with no hyphen at either end |
| DomainPattern.TldGroupsIff | validator.go:243 | `(\.[a-zA-Z]{2,})+` matches exactly a string that starts with '.' and whose later dot-separated parts are all two or more letters |
| DomainPattern.PatternIsSplitShape | validator.go:243 | the pattern matches exactly when the split has two or more parts, a valid first label and letters-only later parts |
| DomainPattern.MatchedCharset | validator.go:243 | a matched string is over [A-Za-z0-9.-] and holds no ':' or '/' |
| ValidatorGo.IsSubdomainWithoutScheme | validator.go:61-69 | the answer is true exactly when the input holds at least two dots; the error is always nil |
| ValidatorGo.IsSubdomainWithoutSchemeTable | validator_test.go:31-34 | "https://test.byeoungwoolee.com" and "test.byeoungwoolee.com" are subdomains; "https://byeoungwoolee.com" and "byeoungwoolee.com" are not |
| ValidatorGo.IsSubdomainWithoutSchemeLabelCounts | validator.go:61-69 | dot-free labels a.b.c make a subdomain; a.b and a alone do not |
| ValidatorGo.WithDefaultScheme | validator.go:74-76 | an input that starts with http:// or https:// is returned unchanged; any other input gets exactly "http://" in front; either way the result starts with http:// or https:// and ends with the input |
| ValidatorGo.IsSubdomainWithScheme | validator.go:72-96 | an error exactly when url.Parse fails on the normalised input, and then url.Parse's own error is returned unchanged with false; otherwise true exactly when the Host cut at its first ':' holds at least two dots |
| ValidatorGo.IsAlphaNumeric | validator.go:191-198 | true exactly when every character is in [a-zA-Z0-9-]; true for "" |
| ValidatorGo.LabelsPass | validator.go:161-166 | the label loop passes exactly when every label is at most 63 characters and passes isAlphaNumeric |
| ValidatorGo.PortInRange | validator.go:172-177 | a port is accepted exactly when Atoi converts it to a value in 1..65535; a digit string is accepted exactly when its decimal value is in 1..65535 |
| ValidatorGo.PortInRangeDecimal | validator.go:172-177 | the decimal spelling of n is an accepted port exactly when 1 <= n <= 65535 |
| ValidatorGo.URIValidator | validator.go:118-188 | false for "" and on a parse error; when true: an http/https scheme if required, a non-empty Host, a hostname with a dot and no dot at either end, not an IP literal, at most 253 characters, and no space in the path |
| ValidatorGo.LabelsPassIff | validator.go:161-166 | the label loop passes exactly when every label is accepted on its own |
| ValidatorGo.LabelCountTestRedundant | validator.go:157 | a hostname that holds a dot always splits into at least two labels |
| ValidatorGo.URIValidatorIsConjunction | validator.go:118-188 | true exactly when every check holds: non-empty, parses, scheme, Host, hostname rules, port rule and path rule |
| ValidatorGo.DoubleDotHostnameAccepted | validator.go:150-166 | for labels first and last of 1 to 63 characters of [a-zA-Z0-9-], the hostname first..last, with an empty label between, passes every hostname rule when the library does not read it as an IP |
| ValidatorGo.EmptyInteriorLabelAccepted | validator.go:150-166 | for labels first and last of 1 to 63 characters of [a-zA-Z0-9-], a non-empty URI that the library parses to scheme http, Host and hostname first..last, no port, path "/" and no query, with that hostname not an IP, is accepted with the scheme required: an empty interior label, as in a..com, passes |
| ValidatorGo.PathValidator | validator.go:200-211 | false for ""; a nil dereference exactly when a non-empty string fails to parse; otherwise true exactly for a path with no scheme, Host or query |
| ValidatorGo.PathValidatorChecked | validator.go:210 | false for "" or a parse error; true only for a bare path; equal to PathValidator wherever that returns |
| ValidatorGo.DomainValidator | validator.go:233-275 | false outside 1..253 characters; an accepted string is in the domain pattern's language |
| ValidatorGo.DomainValidatorIgnoresFlag | validator.go:233-235 | the answer does not depend on isSubDomain |
| ValidatorGo.SchemeBranchUnreachable | validator.go:250-259 | no string the pattern matches starts with http:// or https://, so domainData is the input |
| ValidatorGo.DomainValidatorOnMatch | validator.go:249-274 | on a matched string of 1 to 253 characters the answer is IsSubdomainWithScheme's error-free true |
| ValidatorGo.BareHostSubdomain | validator.go:72-96 | assuming ParsesBareHost, a bare host over [A-Za-z0-9.-] is a subdomain exactly when it holds at least two dots, with no error |
| ValidatorGo.DomainValidatorExact | validator.go:233-275 | assuming ParsesBareHost, true exactly for 1 to 253 characters in the pattern's language with at least two dots |
| ValidatorGo.ForeignCharRejected | validator.go:243-247 | a string holding a character outside [A-Za-z0-9.-] is rejected |
| ValidatorGo.ThreeLabelsMatch | validator.go:243 | a valid first label followed by two letters-only labels matches the pattern |
| ValidatorGo.TestHostMatches | validator_test.go:67 | test.byeoungwoolee.com matches the pattern |
| ValidatorGo.DomainValidatorTable | validator_test.go:64-67 | assuming ParsesBareHost, "https://test.byeoungwoolee.com", "https://byeoungwoolee.com" and "byeoungwoolee.com" with flag false are rejected; "test.byeoungwoolee.com" with flag true is accepted |
| ValidatorGo.SpacedStringRejected | validator.go:243-247 | "not a domain" is rejected |
| MainGo.IsSubdomain | main.go:23-39 | an error exactly when url.Parse fails, and then url.Parse's own error is returned unchanged with false; otherwise true exactly when the whole Host holds at least two dots; an empty Host gives (false, nil) |
| MainGo.IsSubdomainAgreesWithScheme | main.go:23-39 | on an input with an http(s) scheme whose Host holds no ':', the answer equals validator.go's IsSubdomainWithScheme |
| MainGo.ScanFrom | main.go:115-119 | the rune loop from position i passes exactly when every later character is in [a-zA-Z0-9-] |
| MainGo.IsAlphaNumeric | main.go:114-121 | true exactly when every character is in [a-zA-Z0-9-]; the same answer as validator.go's copy |
| MainGo.URIValidator | main.go:41-111 | decides every input exactly as validator.go's URIValidator, so all of its properties carry over |
| MainGo.PathValidator | main.go:123-134 | false for ""; a nil dereference exactly when a non-empty string fails to parse; otherwise true exactly for a path with no scheme, Host or query; the same as validator.go's copy |
| MainGo.PathValidatorChecked | main.go:133 | true exactly for a non-empty string that parses to a path with no scheme, Host or query |
| MainGo.DomainValidator | main.go:136-153 | true exactly for 1 to 253 characters in the domain pattern's language |
| MainGo.NewerDomainValidatorStricter | main.go:136-153 | whatever validator.go's DomainValidator accepts, this one accepts |
| MainGo.NewerDomainValidatorAddsSubdomainTest | main.go:136-153 | assuming ParsesBareHost, validator.go's DomainValidator is this one plus at least two dots |
| MainGo.TwoLabelsMatch | main.go:144 | a valid first label followed by one letters-only label matches the pattern |
| MainGo.RootDomainSeparatesCopies | main.go:136-153 | assuming ParsesBareHost, byeoungwoolee.com passes this DomainValidator but not validator.go's; test.byeoungwoolee.com passes both |

## Left out

- `UseValidator` (validator.go:16-47): its rules live in struct tags read by a third-party validation library that is not part of this model.
- `CheckBase64` (validator.go:49-58): a wrapper over Go's base64 decoder, whose acceptance rules are not part of this model.
- `playground/echo_custom_validator.go`: an adapter between third-party web and validation frameworks, with no logic of its own beyond a tag-to-message switch.
- `main()` (main.go:155-210): reads and decodes a fixture file under a mutex and prints results; I/O only.
- All `fmt.Printf` and `fmt.Println` logging: it changes no result. The one logging call that matters is the nil dereference in PathValidator, which is modelled.
- The internals of `url.Parse`, `URL.Hostname`, `URL.Port` and `net.ParseIP`: they are the `Stdlib` parameter. The single fact the DomainValidator lemmas need is the named assumption `ParsesBareHost`, which is not proved.
- `GoStrconv.Atoi`: does not model the range error Go returns for values beyond 64 bits. Such values are above 65535, so the port check rejects them either way.
- Strings are sequences of characters, while Go's `len` counts bytes. The two differ only on non-ASCII characters, and every such character already fails the pattern or the label charset, so no verdict changes.
- What the error from `url.Parse` holds (the part of the input it records, its message): `Stdlib.parse` chooses it, and the subdomain checks only pass it on unchanged.
- A contract coupling the domain check with the expected subdomain flag is not modelled: the code only logs `isSubDomain` (validator.go:235), and `ValidatorGo.DomainValidatorIgnoresFlag` proves the result does not depend on it.
- Stripping an `http://` or `https://` prefix before the subdomain test is modelled as written, but `ValidatorGo.SchemeBranchUnreachable` proves it never happens: the pattern rejects every string with such a prefix.

## Findings

| source | as written | input that shows it | evidently intended | confidence | as-written member | corrected member |
|---|---|---|---|---|---|---|
| validator.go:209 | the log call reads `u.Path`, `u.Scheme`, `u.Host` and `u.RawQuery` before `err` is checked, and `u` is nil after a parse error | any non-empty string url.Parse rejects, such as ":" (missing protocol scheme) | return false on a parse error, as the `err == nil &&` of line 210 says | high; not executed | ValidatorGo.PathValidator | ValidatorGo.PathValidatorChecked |
| main.go:132 | the same log call before the same return, so the same nil dereference | any non-empty string url.Parse rejects, such as ":" | return false on a parse error, as the `err == nil &&` of line 133 says | high; not executed | MainGo.PathValidator | MainGo.PathValidatorChecked |
