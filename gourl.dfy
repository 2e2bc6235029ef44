/** The library calls the validators make whose internals are not modelled:
    Go's url.Parse (with the URL methods Hostname and Port) and net.ParseIP. */
module GoUrl {
  import opened Wrappers
  import opened Ascii

  /** The fields of a parsed *url.URL that the validators read. `hostname` and
      `port` stand for the results of u.Hostname() and u.Port(). */
  datatype URL = URL(scheme: string, host: string, hostname: string, port: string, path: string, rawQuery: string)

  /** The *url.Error that url.Parse returns: the operation, the part of the
      input it was working on and the underlying message. Which error a given
      input gets is up to `Stdlib.parse`; the validators only pass it on. */
  datatype ParseError = ParseError(op: string, url: string, err: string)

  /** The library as the validators see it: `parse` is url.Parse, giving either
      the parsed URL or the error it returns; `isIP(h)` is
      `net.ParseIP(h) != nil`. */
  datatype Stdlib = Stdlib(parse: string -> Result<URL, ParseError>, isIP: string -> bool)

  /** ASSUMPTION about url.Parse, not proved here and stated only where a lemma
      needs it: prefixing "http://" to a string over [A-Za-z0-9.-] gives a URL
      whose Host is exactly that string. */
  ghost predicate ParsesBareHost(lib: Stdlib) {
    forall s :: IsHostString(s) ==> lib.parse("http://" + s).Success? && lib.parse("http://" + s).value.host == s
  }
}
