/**
 The collaborators the engine calls but whose internals are not modelled: the
 compiled regular expressions' `FindAll`, `sha256.Sum256`, `net/url`, and the
 results of reading a file or fetching the TLD list. Each is a total function or a
 value handed in by the caller; only what its output is known to satisfy is stated.
 */
module Library {
  import opened Wrappers
  import opened Hex
  import opened Shapes

  type Bytes = seq<byte>

  /** The output of `sha256.Sum256`: 32 bytes. */
  type Digest = d: seq<byte> | |d| == 32 witness ZeroDigest

  const ZeroDigest: seq<byte> := seq(32, _ => 0)

  /** The fields of a `net/url.URL` the engine reads or writes. */
  datatype Url = Url(
    scheme: string,
    user: string,
    host: string,
    path: string,
    rawQuery: string,
    forceQuery: bool,
    fragment: string)

  /**
   `url.Parse` (a partial function: `None` is a parse error), `URL.String`, and
   `URL.Hostname`, which in Go reads only the `Host` field.
   */
  datatype UrlLib = UrlLib(
    parse: string -> Option<Url>,
    render: Url -> string,
    hostname: string -> string)

  /** `FindAll(data, -1)` of the four compiled expressions, matches in order. */
  datatype Matchers = Matchers(
    ipv4: Bytes -> seq<string>,
    ipv6: Bytes -> seq<string>,
    url: Bytes -> seq<string>,
    domain: Bytes -> seq<string>)
  {
    /** Every match has the shape of the expression that found it. */
    ghost predicate Shaped() {
      && (forall data, i :: 0 <= i < |ipv4(data)| ==> IsIPv4(ipv4(data)[i]))
      && (forall data, i :: 0 <= i < |ipv6(data)| ==> IsIPv6(ipv6(data)[i]))
      && (forall data, i :: 0 <= i < |url(data)| ==> IsUrl(url(data)[i]))
      && (forall data, i :: 0 <= i < |domain(data)| ==> IsDomain(domain(data)[i]))
    }
  }

  /** The compiled expressions: matchers whose matches have their shapes. */
  type Patterns = m: Matchers | m.Shaped() witness Matchers(_ => [], _ => [], _ => [], _ => [])

  /** Everything the per-file extraction calls into. */
  datatype Toolkit = Toolkit(patterns: Patterns, urls: UrlLib, sha256: Bytes -> Digest)

  /** The outcome of `os.ReadFile`. */
  datatype ReadResult = Contents(data: Bytes) | ReadFailure(error: string)

  /** The outcome of `http.Get` followed by reading the body. */
  datatype HttpResult = Body(text: string) | HttpFailure(error: string)
}
