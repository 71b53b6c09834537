/**
 Turning the body of the IANA TLD list into the filter's entries: lower-case the
 body, split it on `\n`, and drop the leading run of lines that start with `#`.
 `FetchTLDs` and the parsing half of `getTLDs` do exactly this.
 */
module TldList {
  import opened Wrappers
  import opened Text
  import opened Library

  /** `strings.HasPrefix(line, "#")`. */
  predicate IsComment(line: string) {
    HasPrefix(line, "#")
  }

  /** Some line is not a comment; otherwise the header loop runs off the end and panics. */
  predicate HasEntry(lines: seq<string>) {
    exists i :: 0 <= i < |lines| && !IsComment(lines[i])
  }

  /** The lines of a body as `strings.Split(strings.ToLower(body), "\n")` gives them. */
  function Lines(body: string): seq<string> {
    Split(Lower(body), '\n')
  }

  /**
   The loop `for strings.HasPrefix(tlds[0], "#") { tlds = tlds[1:] }`: the result is
   the suffix of `lines` left after its leading comment lines, and starts with an entry.
   */
  method StripHeader(lines: seq<string>) returns (r: seq<string>)
    requires HasEntry(lines)
    ensures 0 < |r| <= |lines|
    ensures r == lines[|lines| - |r|..]
    ensures forall j :: 0 <= j < |lines| - |r| ==> IsComment(lines[j])
    ensures !IsComment(r[0])
  {
    ghost var entry :| 0 <= entry < |lines| && !IsComment(lines[entry]);
    ghost var k := 0;
    r := lines;
    while IsComment(r[0])
      invariant 0 <= k <= entry
      invariant r == lines[k..]
      invariant forall j :: 0 <= j < k ==> IsComment(lines[j])
      decreases |r|
    {
      r := r[1..];
      k := k + 1;
    }
  }

  /** The parsing half shared by `FetchTLDs` and `getTLDs`. */
  method ParseTlds(body: string) returns (tlds: seq<string>)
    requires HasEntry(Lines(body))
    ensures forall i :: 0 <= i < |tlds| ==> IsLowercase(tlds[i])
    ensures 0 < |tlds| <= |Lines(body)| == multiset(body)['\n'] + 1
    ensures tlds == Lines(body)[|Lines(body)| - |tlds|..]
    ensures forall j :: 0 <= j < |Lines(body)| - |tlds| ==> IsComment(Lines(body)[j])
    ensures !IsComment(tlds[0])
    ensures |body| > 0 && body[|body| - 1] == '\n' ==> tlds[|tlds| - 1] == ""
  {
    var content := Lower(body);
    var lines := Split(content, '\n');
    tlds := StripHeader(lines);
    LinesFacts(body);
  }

  /**
   The lines before stripping: one more than the newlines of the body, all lower
   case, and a body that ends in a newline ends in an empty line.
   */
  lemma LinesFacts(body: string)
    ensures |Lines(body)| == multiset(body)['\n'] + 1
    ensures forall i :: 0 <= i < |Lines(body)| ==> IsLowercase(Lines(body)[i])
    ensures |body| > 0 && body[|body| - 1] == '\n' ==> Lines(body)[|Lines(body)| - 1] == ""
  {
    var content := Lower(body);
    SplitCount(content, '\n');
    SplitLower(body, '\n');
    SplitCount(body, '\n');
    if |body| > 0 && body[|body| - 1] == '\n' {
      SplitTrailingSeparator(content, '\n');
    }
  }

  /**
   `FetchTLDs` after the request: on an HTTP error an empty list and that error,
   otherwise the parsed body and no error.
   */
  method FetchTlds(response: HttpResult) returns (tlds: seq<string>, err: Option<string>)
    requires response.Body? ==> HasEntry(Lines(response.text))
    ensures response.HttpFailure? ==> tlds == [] && err == Some(response.error)
    ensures response.Body? ==>
              && err == None
              && 0 < |tlds| <= |Lines(response.text)|
              && tlds == Lines(response.text)[|Lines(response.text)| - |tlds|..]
              && (forall j :: 0 <= j < |Lines(response.text)| - |tlds| ==> IsComment(Lines(response.text)[j]))
              && !IsComment(tlds[0])
              && (forall i :: 0 <= i < |tlds| ==> IsLowercase(tlds[i]))
              && (|response.text| > 0 && response.text[|response.text| - 1] == '\n' ==> tlds[|tlds| - 1] == "")
  {
    match response
    case HttpFailure(e) =>
      tlds, err := [], Some(e);
    case Body(text) =>
      tlds := ParseTlds(text);
      err := None;
  }
}
