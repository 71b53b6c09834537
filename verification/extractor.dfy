/**
 The newer engine, the `extractor` type: per file, the content hash, then IPv4 and
 IPv6 matches, then filtered domains, then normalised URLs (without host names).
 */
module Extractor {
  import opened Wrappers
  import opened Hex
  import opened Text
  import opened Shapes
  import opened Library
  import opened TldFilter
  import opened Urls
  import opened Trimming

  /** The `extractor` struct: its `TLDs` field and the collaborators it calls. */
  datatype Extractor = Extractor(tlds: seq<string>, kit: Toolkit)

  /** `calcSha256`: the digest as 64 lower-case hex digits, two per byte in byte order. */
  function CalcSha256(e: Extractor, data: Bytes): (r: string)
    ensures |r| == 64
    ensures IsHexText(r)
    ensures FromHex(r) == e.kit.sha256(data)
  {
    FromToHex(e.kit.sha256(data));
    ToHex(e.kit.sha256(data))
  }

  /** `extractIPs`: every IPv4 match, then every IPv6 match. */
  method ExtractIPs(e: Extractor, data: Bytes) returns (ips: seq<string>)
    ensures |ips| == |e.kit.patterns.ipv4(data)| + |e.kit.patterns.ipv6(data)|
    ensures ips == e.kit.patterns.ipv4(data) + e.kit.patterns.ipv6(data)
    ensures forall k :: 0 <= k < |e.kit.patterns.ipv4(data)| ==> IsIPv4(ips[k])
    ensures forall k :: |e.kit.patterns.ipv4(data)| <= k < |ips| ==> IsIPv6(ips[k])
  {
    ips := [];
    var v4matches := e.kit.patterns.ipv4(data);
    for i := 0 to |v4matches|
      invariant ips == v4matches[..i]
    {
      ips := ips + [v4matches[i]];
    }
    var v6matches := e.kit.patterns.ipv6(data);
    for i := 0 to |v6matches|
      invariant ips == v4matches + v6matches[..i]
    {
      ips := ips + [v6matches[i]];
    }
  }

  /**
   `extractUrls`: for every match the parser accepts, in order, its serialisation
   after clearing the query and trimming the path; rejected matches give nothing.
   */
  method ExtractUrls(e: Extractor, data: Bytes) returns (urls: seq<string>)
    ensures urls == NormalizedUrls(e.kit.urls, e.kit.patterns.url(data))
    ensures |urls| == |AcceptedIndices(e.kit.urls, e.kit.patterns.url(data))|
  {
    var lib := e.kit.urls;
    var matches := e.kit.patterns.url(data);
    urls := [];
    for i := 0 to |matches|
      invariant urls == NormalizedUrls(lib, matches[..i])
    {
      NormalizedUrlsStep(lib, matches, i);
      var parsed := lib.parse(matches[i]);
      if parsed.None? {
        continue;
      }
      var u := parsed.value;
      u := u.(rawQuery := "");
      u := u.(path := Trim(u.path, PathCutset));
      assert u == Normalize(parsed.value);
      urls := urls + [lib.render(u)];
    }
    assert matches[..|matches|] == matches;
  }

  /**
   `extractDomains`: lower-cased matches, each once when `TLDs` is empty and once per
   entry it ends `"." + entry` with otherwise; all lower case and domain-shaped.
   */
  method ExtractDomains(e: Extractor, data: Bytes) returns (domains: seq<string>)
    ensures domains == FilterDomains(e.tlds, e.kit.patterns.domain(data))
    ensures |e.tlds| == 0 ==> domains == LowerAll(e.kit.patterns.domain(data))
    ensures forall k :: 0 <= k < |domains| ==> IsLowercase(domains[k]) && IsDomain(domains[k])
  {
    var matches := e.kit.patterns.domain(data);
    domains := CollectDomains(e.tlds, matches);
    FilterShape(e.tlds, matches);
    FilterDisabled(matches);
  }

  /** The records of one readable file, in the order `extractFileIoCs` appends them. */
  function FileRecords(e: Extractor, data: Bytes): (r: seq<string>)
    ensures |r| == 1 + |e.kit.patterns.ipv4(data)| + |e.kit.patterns.ipv6(data)|
              + |FilterDomains(e.tlds, e.kit.patterns.domain(data))|
              + |AcceptedIndices(e.kit.urls, e.kit.patterns.url(data))|
    ensures r[0] == CalcSha256(e, data)
  {
    [CalcSha256(e, data)]
      + (e.kit.patterns.ipv4(data) + e.kit.patterns.ipv6(data))
      + FilterDomains(e.tlds, e.kit.patterns.domain(data))
      + NormalizedUrls(e.kit.urls, e.kit.patterns.url(data))
  }

  /**
   `extractFileIoCs`: a read error gives no records and that error; otherwise the
   hash, the IPs, the domains and the URLs, in that order, nothing deduplicated.
   */
  method ExtractFileIoCs(e: Extractor, file: ReadResult) returns (iocs: seq<string>, err: Option<string>)
    ensures file.ReadFailure? ==> iocs == [] && err == Some(file.error)
    ensures file.Contents? ==> err == None && iocs == FileRecords(e, file.data)
    ensures file.Contents? ==>
              |iocs| == 1 + |e.kit.patterns.ipv4(file.data)| + |e.kit.patterns.ipv6(file.data)|
                + |FilterDomains(e.tlds, e.kit.patterns.domain(file.data))|
                + |AcceptedIndices(e.kit.urls, e.kit.patterns.url(file.data))|
    ensures file.Contents? ==> IsHexText(iocs[0]) && |iocs[0]| == 64
  {
    if file.ReadFailure? {
      return [], Some(file.error);
    }
    var data := file.data;
    iocs := [CalcSha256(e, data)];
    var ips := ExtractIPs(e, data);
    iocs := iocs + ips;
    var domains := ExtractDomains(e, data);
    iocs := iocs + domains;
    var urls := ExtractUrls(e, data);
    iocs := iocs + urls;
    err := None;
  }

  /** Slicing the records of a readable file back into the four kinds. */
  lemma FileRecordsLayout(e: Extractor, data: Bytes)
    ensures var r := FileRecords(e, data);
            var a := 1 + |e.kit.patterns.ipv4(data)|;
            var b := a + |e.kit.patterns.ipv6(data)|;
            var c := b + |FilterDomains(e.tlds, e.kit.patterns.domain(data))|;
            && r[0] == CalcSha256(e, data)
            && r[1..a] == e.kit.patterns.ipv4(data)
            && r[a..b] == e.kit.patterns.ipv6(data)
            && r[b..c] == FilterDomains(e.tlds, e.kit.patterns.domain(data))
            && r[c..] == NormalizedUrls(e.kit.urls, e.kit.patterns.url(data))
  {
  }
}
