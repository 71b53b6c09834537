/**
 The older engine in `main.go`: per file, the content hash, then IPv4 matches only,
 then for every URL that parses its normalised form followed by its host name, then
 the filtered domains only when the `-domains` flag is set. The TLD list is the
 package-level `tlds` variable, passed in here.
 */
module Legacy {
  import opened Wrappers
  import opened Hex
  import opened Text
  import opened Shapes
  import opened Library
  import opened TldFilter
  import opened Urls
  import opened Trimming
  import opened TldList

  /** `getFileIOCs` either returns records or ends the process through `log.Fatalln`. */
  datatype Outcome = Records(iocs: seq<string>) | Fatal(error: string)

  /** `getFileSHA256`: the digest as 64 lower-case hex digits. */
  function FileSha256(kit: Toolkit, data: Bytes): (r: string)
    ensures |r| == 64
    ensures IsHexText(r)
    ensures FromHex(r) == kit.sha256(data)
  {
    FromToHex(kit.sha256(data));
    ToHex(kit.sha256(data))
  }

  /** `getFileIPs`: the IPv4 matches, all dotted quads; no IPv6 address is reported. */
  method FileIPs(kit: Toolkit, data: Bytes) returns (ips: seq<string>)
    ensures ips == kit.patterns.ipv4(data)
    ensures forall k :: 0 <= k < |ips| ==> IsIPv4(ips[k]) && !IsIPv6(ips[k])
  {
    var matches := kit.patterns.ipv4(data);
    ips := [];
    for i := 0 to |matches|
      invariant ips == matches[..i]
    {
      ips := ips + [matches[i]];
    }
    forall k | 0 <= k < |ips| {
      IPShapesDisjoint(ips[k]);
    }
  }

  /** `getFileURLs`: the raw URL matches, unparsed. */
  method FileURLs(kit: Toolkit, data: Bytes) returns (urls: seq<string>)
    ensures urls == kit.patterns.url(data)
    ensures forall k :: 0 <= k < |urls| ==> IsUrl(urls[k])
  {
    var matches := kit.patterns.url(data);
    urls := [];
    for i := 0 to |matches|
      invariant urls == matches[..i]
    {
      urls := urls + [matches[i]];
    }
  }

  /**
   `getFileDomains`: lower-cased matches, each kept once when `tlds` is empty and once
   per entry it ends `"." + entry` with otherwise.
   */
  method FileDomains(tlds: seq<string>, kit: Toolkit, data: Bytes) returns (domains: seq<string>)
    ensures domains == FilterDomains(tlds, kit.patterns.domain(data))
    ensures |tlds| == 0 ==> domains == LowerAll(kit.patterns.domain(data))
    ensures forall k :: 0 <= k < |domains| ==> IsLowercase(domains[k]) && IsDomain(domains[k])
  {
    var matches := kit.patterns.domain(data);
    domains := CollectDomains(tlds, matches);
    FilterShape(tlds, matches);
    FilterDisabled(matches);
  }

  /** The records of one readable file, in the order `getFileIOCs` appends them. */
  function FileRecords(tlds: seq<string>, kit: Toolkit, data: Bytes, domains: bool): (r: seq<string>)
    ensures |r| == 1 + |kit.patterns.ipv4(data)| + 2 * |AcceptedIndices(kit.urls, kit.patterns.url(data))|
              + (if domains then |FilterDomains(tlds, kit.patterns.domain(data))| else 0)
    ensures r[0] == FileSha256(kit, data)
  {
    [FileSha256(kit, data)]
      + kit.patterns.ipv4(data)
      + UrlPairs(kit.urls, kit.patterns.url(data))
      + (if domains then FilterDomains(tlds, kit.patterns.domain(data)) else [])
  }

  /**
   `getFileIOCs`: a read error is fatal; otherwise the hash, the IPv4 matches, a
   (URL, host name) pair per URL that parses, and the domains when `domains` is set.
   */
  method FileIoCs(tlds: seq<string>, kit: Toolkit, file: ReadResult, domains: bool) returns (out: Outcome)
    ensures file.ReadFailure? ==> out == Fatal(file.error)
    ensures file.Contents? ==> out == Records(FileRecords(tlds, kit, file.data, domains))
    ensures file.Contents? ==>
              |out.iocs| == 1 + |kit.patterns.ipv4(file.data)|
                + 2 * |AcceptedIndices(kit.urls, kit.patterns.url(file.data))|
                + (if domains then |FilterDomains(tlds, kit.patterns.domain(file.data))| else 0)
  {
    if file.ReadFailure? {
      return Fatal(file.error);
    }
    var content := file.data;
    var iocs := [FileSha256(kit, content)];
    var ips := FileIPs(kit, content);
    iocs := iocs + ips;
    ghost var head := iocs;
    var matches := FileURLs(kit, content);
    var lib := kit.urls;
    for i := 0 to |matches|
      invariant iocs == head + UrlPairs(lib, matches[..i])
    {
      UrlPairsStep(lib, matches, i);
      var parsed := lib.parse(matches[i]);
      if parsed.None? {
        continue;
      }
      var u := parsed.value;
      u := u.(rawQuery := "");
      u := u.(path := Trim(u.path, PathCutset));
      assert u == Normalize(parsed.value);
      iocs := iocs + [lib.render(u), lib.hostname(u.host)];
    }
    assert matches[..|matches|] == matches;
    if domains {
      var found := FileDomains(tlds, kit, content);
      iocs := iocs + found;
    }
    return Records(iocs);
  }

  /** The parsing half of `getTLDs`: the same steps as `FetchTLDs`. */
  method LoadTlds(body: string) returns (tlds: seq<string>)
    requires HasEntry(Lines(body))
    ensures 0 < |tlds| <= |Lines(body)|
    ensures tlds == Lines(body)[|Lines(body)| - |tlds|..]
    ensures forall j :: 0 <= j < |Lines(body)| - |tlds| ==> IsComment(Lines(body)[j])
    ensures !IsComment(tlds[0])
    ensures forall i :: 0 <= i < |tlds| ==> IsLowercase(tlds[i])
    ensures |body| > 0 && body[|body| - 1] == '\n' ==> tlds[|tlds| - 1] == ""
  {
    tlds := ParseTlds(body);
  }
}
