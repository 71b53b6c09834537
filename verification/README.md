# iocextract: the extraction engine in Dafny

This project models the string-processing core of `iocextract`, a tool that scans files for
Indicators of Compromise: a SHA-256 content hash, IPv4 and IPv6 addresses, URLs and
domain names. The repository contains two variants of the engine, and they are modelled
side by side:

- the newer `extractor` type (`classes/extractor.go`). Per file it emits the hash, then the
  IPv4 and IPv6 matches, then the filtered domains, then the normalised URLs.
- the older program in `main.go`. Per file it emits the hash, then IPv4 matches only, then a
  (normalised URL, host name) pair per URL, then the domains, but only when the `-domains`
  flag is set.

The parsing half of `FetchTLDs` (`utilities/functions.go`) and of `getTLDs` is modelled too.
It lower-cases the IANA list, splits it into lines and drops the comment header.

Modules, leaves first:

- `Wrappers` (`wrappers.dfy`): `Option`.
- `Text` (`text.dfy`): ASCII character classes, `strings.ToLower`, `HasPrefix`,
  `HasSuffix`, and `strings.Split` on one character, with `Join` as its inverse.
- `Trimming` (`trim.dfy`): `strings.Trim` with a cut set.
- `Hex` (`hex.dfy`): bytes and `fmt.Sprintf("%x", …)`, with a decoder as its inverse.
- `Shapes` (`shapes.dfy`): the token shapes the regular expressions accept. These are the
  IPv4 octet grammar, the 8-group IPv6 form, the URL character class, and the domain form
  (label, dot, 2 to 6 letters).
- `Library` (`library.dfy`): the collaborators, which are not modelled inside. Regex `FindAll`
  is a `Patterns` value whose matches are guaranteed to have their shapes. `sha256.Sum256` is
  a function returning 32 bytes. `url.Parse`, `URL.String` and `URL.Hostname` form a
  `UrlLib`, where parsing is partial and the host name depends on the `Host` field only.
  The outcome of a file read or an HTTP fetch is an input value.
- `TldFilter` (`tld_filter.dfy`): the domain filter loop, shared by both variants.
- `Urls` (`urls.dfy`): query clearing and path trimming, the accepted URLs, and the two ways
  of emitting them.
- `TldList` (`tld_list.dfy`): TLD-list header stripping.
- `Extractor` (`extractor.dfy`): the newer variant.
- `Legacy` (`legacy.dfy`): the older variant.

Behaviour of the code that the model keeps, where it differs from what one might expect:

- **The filter emits a match once per matching TLD entry.** The `continue` inside the TLD
  loop only moves on to the next entry. So a match is emitted once for every entry it ends
  `"." + entry` with, and a TLD listed twice gives duplicate records (`TldHitsCount`,
  `DuplicateTldsDuplicate`).
- **A domain match has exactly one dot.** The domain expression has a single `\.`, so a match
  is one label, a dot and 2 to 6 letters. It is not `label(.label)+`.
- **The IPv4 expression has no word boundaries.** Inside `10.0.0.256` it can find
  `10.0.0.25`, which is a valid dotted quad (`OctetBoundary`). The shape itself rejects
  `10.0.0.256`.
- **The URL class `[$-_]` is a character range, 0x24 to 0x5F.** It admits `'`, `(`, `)` and
  `/`, which is why the path is trimmed. It never admits `#`, `"`, a space or `~`, so a
  fragment never reaches the parser (`UrlExcludes`).
- **Only the older variant emits host names.** The newer variant emits the normalised URL
  alone.
- **The two variants order records differently.** The newer one emits domains before URLs.
  The older one emits URLs before domains.
- **A read error is handled differently.** The newer variant returns an empty list and the
  error. The older one calls `log.Fatalln`, modelled as the `Fatal` outcome.

## Model

| member | source | states |
|---|---|---|
| `Text.Lower` | classes/extractor.go:91 | `strings.ToLower` keeps the length, maps each character on its own, and leaves no upper-case letter |
| `Text.LowerFixpoint` | utilities/functions.go:23 | lower-casing is idempotent and fixes exactly the strings that are already lower case |
| `Text.Split` | utilities/functions.go:24 | `strings.Split` on one character always yields at least one piece; `SplitSpec` and `SplitJoin` pin down which pieces |
| `Text.SplitSpec` | utilities/functions.go:24 | `strings.Split` gives one piece more than there are separators; no piece holds the separator; joining the pieces gives the input back |
| `Text.SplitJoin` | utilities/functions.go:24 | splitting a join of separator-free pieces gives those pieces back, so `Split` and `Join` are inverse |
| `Text.SplitTrailingSeparator` | utilities/functions.go:24 | a body ending in the separator yields a final empty piece |
| `Text.SplitLower` | utilities/functions.go:23-24 | lower-casing and then splitting on a non-letter gives the lower-cased pieces |
| `Text.JoinChars` | utilities/functions.go:24 | every character of a joined string is the separator or comes from one of the pieces |
| `Trimming.Trim` | classes/extractor.go:79 | after `strings.Trim`, neither end of the result is a cut character |
| `Trimming.TrimSlice` | classes/extractor.go:79 | the trimmed result is a slice of the input, and only cut characters were removed on either side |
| `Trimming.TrimFixpoint` | classes/extractor.go:79 | `Trim` leaves a string unchanged exactly when neither of its ends is a cut character |
| `Trimming.TrimIdempotent` | classes/extractor.go:79 | trimming twice is the same as trimming once |
| `Hex.ToHex` | classes/extractor.go:49 | `%x` gives two lower-case hex digits per byte |
| `Hex.ToHexAt` | classes/extractor.go:49 | byte `i` is rendered at characters `2i` and `2i+1`, high nibble first, in byte order |
| `Hex.FromToHex` | classes/extractor.go:49 | decoding the rendering gives back the bytes, so the rendering loses nothing |
| `Hex.ToFromHex` | classes/extractor.go:49 | every even-length lower-case hex text is the rendering of exactly the bytes it decodes to |
| `Shapes.IsIPv4` | classes/extractor.go:15 | a dotted quad: splitting on `.` gives exactly four pieces, each accepted by one of the five octet alternatives |
| `Shapes.IsIPv6` | classes/extractor.go:16 | splitting on `:` gives exactly eight groups of 1 to 4 hex digits of either case; the `::` short form is not accepted |
| `Shapes.IsDomain` | classes/extractor.go:18 | splitting on `.` gives exactly two pieces: a label of alphanumerics and hyphens starting with an alphanumeric, and 2 to 6 letters |
| `Shapes.IsUrl` | classes/extractor.go:17 | `http://` or `https://` followed by at least one character of the class, where `$-_` is the range 0x24 to 0x5F |
| `Shapes.OctetValue` | classes/extractor.go:15 | the octet grammar accepts exactly the decimal numerals 0 to 255 that have no leading zero |
| `Shapes.IPv4Octets` | classes/extractor.go:15 | an IPv4 match is four octets joined by dots; each has 1 to 3 digits, no leading zero and a value of at most 255 |
| `Shapes.IPv6Groups` | classes/extractor.go:16 | an IPv6 match holds exactly seven colons, and all its other characters are hex digits |
| `Shapes.IPShapesDisjoint` | classes/extractor.go:15-16 | no IPv4 match is also IPv6-shaped |
| `Shapes.DomainParts` | classes/extractor.go:18 | a domain match is a label, a dot and a tail of 2 to 6 letters, so it ends with `.` + that tail |
| `Shapes.DomainLower` | classes/extractor.go:91 | lower-casing a domain match keeps its shape |
| `Shapes.UrlExcludes` | classes/extractor.go:17 | a URL match never contains `#`, `"`, a space or `~` |
| `Shapes.DottedQuad` | main.go:19 | four dot-free pieces joined by dots form an IPv4 match exactly when all four are octets |
| `Shapes.OctetBoundary` | main.go:19 | `192.168.1.1` and `10.0.0.25` are IPv4-shaped; `10.0.0.256` is not |
| `TldFilter.TldHits` | classes/extractor.go:98-103 | the inner TLD loop only ever emits the lower-cased match itself |
| `TldFilter.TldHitsCount` | classes/extractor.go:98-103 | the inner loop emits the match once per list position whose entry it ends `"." + entry` with |
| `TldFilter.TldHitsNone` | classes/extractor.go:98-103 | a match is dropped exactly when no entry is a suffix of it after a dot |
| `TldFilter.DuplicateTldsDuplicate` | classes/extractor.go:98-103 | a matching entry listed twice yields at least two copies of the match |
| `TldFilter.KeepMembers` | classes/extractor.go:93-103 | one match contributes only itself, and it contributes when the list is empty or some entry matches |
| `TldFilter.FilterDomains` | classes/extractor.go:89-104 | every emitted domain is lower case |
| `TldFilter.FilterAppend` | classes/extractor.go:90-103 | one more match appends its lower-cased form once when the list is empty, and once per matching entry otherwise; nothing is deduplicated |
| `TldFilter.FilterDisabled` | classes/extractor.go:93-96 | with an empty TLD list every match is kept once, lower-cased, in match order |
| `TldFilter.FilterMembers` | classes/extractor.go:89-104 | a string is emitted exactly when it is a lower-cased match and the list is empty or one of its entries matches |
| `TldFilter.FilterShape` | classes/extractor.go:89-104 | every emitted domain is lower case, domain-shaped, and ends with `.` + 2 to 6 letters |
| `TldFilter.CollectDomains` | classes/extractor.go:86-107 | the nested loops, with their inner `continue`, compute the filtered list |
| `Urls.Normalize` | classes/extractor.go:78-79 | the query is cleared, neither end of the path is in `)/'"`, and no other field changes |
| `Urls.NormalizedPath` | classes/extractor.go:79 | the new path is the old one with cut characters removed from its ends only, and trimming it again leaves it unchanged |
| `Urls.NormalizeIdempotent` | classes/extractor.go:78-79 | normalising an already normalised URL gives the same URL |
| `Urls.ParsedUrls` | classes/extractor.go:72-76 | there are at most as many accepted URLs as matches |
| `Urls.ParsedUrlsCount` | classes/extractor.go:72-76 | there is one URL per match the parser accepts and none per rejected match; each URL is the parse of some match |
| `Urls.ParsedUrlsComplete` | classes/extractor.go:72-76 | the parse of every accepted match is among the URLs |
| `Urls.NormalizedUrlsStep` | classes/extractor.go:72-81 | an accepted match adds its normalised serialisation; a rejected one adds nothing |
| `Urls.UrlPairsStep` | main.go:156-165 | an accepted match adds its normalised serialisation and then its host name; a rejected one adds nothing |
| `Urls.NormalizedUrls` | classes/extractor.go:71-81 | one record per accepted match, and each record is the serialisation of the normalised parse of some accepted match |
| `Urls.UrlPairs` | main.go:156-165 | two records per accepted match |
| `Urls.UrlPairsOrigin` | main.go:156-165 | each pair is the serialisation of one accepted match's normalised parse followed by the host name of that same parse |
| `Urls.UrlPairsLayout` | main.go:164 | in the pairs, each normalised URL is immediately followed by its host name |
| `TldList.StripHeader` | utilities/functions.go:26-28 | the result is the suffix left after the leading run of `#` lines, and its first entry does not start with `#` |
| `TldList.LinesFacts` | utilities/functions.go:23-24 | before stripping there are newline count + 1 lines, all lower case, and a trailing newline gives a final empty line |
| `TldList.ParseTlds` | utilities/functions.go:22-30 | the entries are lower case, order is kept, only the leading `#` lines are dropped, and a trailing empty entry is kept |
| `TldList.FetchTlds` | utilities/functions.go:15-31 | an HTTP error gives an empty list and that error; a body gives no error and the lines of the lower-cased body after its leading run of `#` lines, in order, with a trailing empty entry kept |
| `Extractor.CalcSha256` | classes/extractor.go:47-50 | the hash record is 64 lower-case hex digits that decode to the digest |
| `Extractor.ExtractIPs` | classes/extractor.go:52-66 | every IPv4 match, then every IPv6 match; the length is the sum of the two counts; the shapes hold |
| `Extractor.ExtractUrls` | classes/extractor.go:68-84 | exactly one normalised URL per accepted match, in order |
| `Extractor.ExtractDomains` | classes/extractor.go:86-107 | the filtered list, lower case and domain-shaped; all matches once when `TLDs` is empty |
| `Extractor.ExtractFileIoCs` | classes/extractor.go:109-121 | a read error gives `[]` and the error; otherwise hash, IPs, domains, URLs, of length 1 + the counts, with the hash first |
| `Extractor.FileRecords` | classes/extractor.go:115-118 | the records of a readable file: the hash first, and 1 + IPv4 + IPv6 + domains + accepted URLs of them |
| `Extractor.FileRecordsLayout` | classes/extractor.go:115-118 | the records split into the hash, the IPv4 matches, the IPv6 matches, the domains and the URLs, in that order |
| `Legacy.FileSha256` | main.go:86-89 | the hash is 64 lower-case hex digits that decode to the digest |
| `Legacy.FileIPs` | main.go:91-103 | only IPv4 matches, each a dotted quad and never an IPv6 address |
| `Legacy.FileURLs` | main.go:105-117 | the raw URL matches, in order |
| `Legacy.FileDomains` | main.go:119-144 | the filtered, lower-cased, domain-shaped list; every match once when `tlds` is empty |
| `Legacy.FileRecords` | main.go:153-171 | the records of a readable file: the hash first, and 1 + IPv4 + 2·accepted URLs + (domains when the flag is set) of them |
| `Legacy.FileIoCs` | main.go:146-172 | a read error is fatal; otherwise hash, IPv4, URL pairs, then domains only if the flag is set; length 1 + IPs + 2·accepted URLs + domains if the flag is set |
| `Legacy.LoadTlds` | main.go:40-45 | `getTLDs` parses the body like `FetchTLDs` does: the lines of the lower-cased body after its leading run of `#` lines and only those, in order, with a trailing empty entry kept |

## Left out

- Goroutine fan-out and fan-in (`ExtractIoCs`, classes/extractor.go:123-144; `main`,
  main.go:187-199) are concurrency and are not modelled. In the code, the error path
  returns without `wg.Done()`, so `Wait` would hang, and the output channel is never closed.
- Deduplication of records across files: none of these files implements it.
- HTTP retrieval of the TLD list is network I/O; only the body parsing is modelled. In
  `getTLDs` (main.go:34-37) the error is logged and `res` is then dereferenced anyway.
- Directory walking (`getFiles`, `GetRecursiveFiles`), `os.Stat` and `os.ReadFile` are I/O.
  A read is an input value, either `Contents` or `ReadFailure`.
- SHA-256 internals: the digest is an opaque function returning 32 bytes.
- `net/url` is not modelled inside. This covers how `String()` re-inserts `/`, how it keeps
  fragments, and `ForceQuery`: clearing `RawQuery` leaves a URL that ended in `?` with its
  `?`, and `Normalize` keeps `forceQuery` as Go does.
- The Go regexp engine (leftmost-first alternation, non-overlapping `FindAll`) is not
  modelled. Which substrings are found is not modelled; only their shapes are.
- Shapes.IsDomainLabel is weaker than the domain expression. It allows a hyphen after any
  alphanumeric, but the expression allows one only after a pair of letters. It also leaves
  out `(?i)` Unicode case folding (the Kelvin sign, the long s).
- Text.Lower is ASCII-only. Go's `strings.ToLower` also maps non-ASCII letters and replaces
  invalid UTF-8. The model's domain shape `Shapes.IsDomain` is ASCII, but the `(?i:…)`
  groups of the domain expression also match the Kelvin sign and the long s, which
  `strings.ToLower` maps (the Kelvin sign to `k`). So the case-folding gap of
  Shapes.IsDomainLabel carries over to lowering domain matches as well as TLD entries.
- Bytes to string conversion of matches: matches are modelled directly as strings.
- `regexp.Compile` failing in `getFileIPs`, `getFileURLs` and `getFileDomains` is not
  modelled. It would be fatal, but the patterns are constants that compile.
- The unused MD5, SHA1 and SHA256 expressions are not modelled. Nor are `flag` parsing and
  `main` wiring.
- TldList.ParseTlds requires that some line does not start with `#`. Otherwise the header
  loop indexes an empty slice and panics.
- Extractor.ExtractFileIoCs does not state that the hash is the only hash-shaped record.
  That would need a fact about the opaque URL serialiser.
