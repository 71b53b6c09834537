/**
 URL normalisation, shared by both variants: parse the match, clear the query, trim
 `)`, `/`, `'` and `"` from both ends of the path, serialise. Matches the parser
 rejects are skipped.
 */
module Urls {
  import opened Wrappers
  import opened Trimming
  import opened Library

  /** The cut set `)/'"` handed to `strings.Trim`. */
  const PathCutset: set<char> := {')', '/', '\'', '"'}

  /** `u.RawQuery = ""` then `u.Path = strings.Trim(u.Path, ")/'\"")`. */
  function Normalize(u: Url): (v: Url)
    ensures v.rawQuery == ""
    ensures |v.path| > 0 ==> v.path[0] !in PathCutset && v.path[|v.path| - 1] !in PathCutset
    ensures v.(path := u.path, rawQuery := u.rawQuery) == u
  {
    u.(rawQuery := "", path := Trim(u.path, PathCutset))
  }

  /**
   The normalised path is the original with cut characters removed from its ends
   only, and trimming it again changes nothing.
   */
  lemma NormalizedPath(u: Url)
    ensures exists i, j ::
              && 0 <= i <= j <= |u.path| && Normalize(u).path == u.path[i..j]
              && (forall k :: 0 <= k < i ==> u.path[k] in PathCutset)
              && (forall k :: j <= k < |u.path| ==> u.path[k] in PathCutset)
    ensures Trim(Normalize(u).path, PathCutset) == Normalize(u).path
  {
    TrimSlice(u.path, PathCutset);
    TrimIdempotent(u.path, PathCutset);
  }

  /** Normalising a normalised URL gives it back. */
  lemma NormalizeIdempotent(u: Url)
    ensures Normalize(Normalize(u)) == Normalize(u)
  {
    TrimIdempotent(u.path, PathCutset);
  }

  /** The URLs the parser accepts, in match order. */
  function ParsedUrls(lib: UrlLib, matches: seq<string>): (r: seq<Url>)
    ensures |r| <= |matches|
    decreases |matches|
  {
    if |matches| == 0 then []
    else
      var n := |matches| - 1;
      ParsedUrls(lib, matches[..n]) + (match lib.parse(matches[n]) case Some(u) => [u] case None => [])
  }

  /** The positions of the matches the parser accepts. */
  ghost function AcceptedIndices(lib: UrlLib, matches: seq<string>): set<int> {
    set i | 0 <= i < |matches| && lib.parse(matches[i]).Some?
  }

  /**
   One URL per accepted match and none per rejected one, and every URL is the parse
   of some match.
   */
  lemma {:induction false} ParsedUrlsCount(lib: UrlLib, matches: seq<string>)
    ensures |ParsedUrls(lib, matches)| == |AcceptedIndices(lib, matches)|
    ensures forall k :: 0 <= k < |ParsedUrls(lib, matches)| ==>
              exists i :: 0 <= i < |matches| && lib.parse(matches[i]) == Some(ParsedUrls(lib, matches)[k])
    decreases |matches|
  {
    if |matches| > 0 {
      var n := |matches| - 1;
      var init := matches[..n];
      ParsedUrlsCount(lib, init);
      var before := AcceptedIndices(lib, init);
      var extra: set<int> := if lib.parse(matches[n]).Some? then {n} else {};
      assert forall i :: 0 <= i < n ==> init[i] == matches[i];
      assert AcceptedIndices(lib, matches) == before + extra;
      assert n !in before;
    }
  }

  /** Every accepted match is parsed to some URL of the list. */
  lemma {:induction false} ParsedUrlsComplete(lib: UrlLib, matches: seq<string>, i: int)
    requires 0 <= i < |matches| && lib.parse(matches[i]).Some?
    ensures lib.parse(matches[i]).value in ParsedUrls(lib, matches)
    decreases |matches|
  {
    var n := |matches| - 1;
    if i < n {
      ParsedUrlsComplete(lib, matches[..n], i);
    }
  }

  /** The normalised form of every accepted match, in match order (`extractUrls`). */
  function NormalizedUrls(lib: UrlLib, matches: seq<string>): (r: seq<string>)
    ensures |r| == |AcceptedIndices(lib, matches)|
    ensures forall k :: 0 <= k < |r| ==>
              exists i :: 0 <= i < |matches| && lib.parse(matches[i]).Some?
                && r[k] == lib.render(Normalize(lib.parse(matches[i]).value))
  {
    ParsedUrlsCount(lib, matches);
    var p := ParsedUrls(lib, matches);
    seq(|p|, k requires 0 <= k < |p| => lib.render(Normalize(p[k])))
  }

  /** For every accepted match its normalised form, then its host name (`getFileIOCs`). */
  function UrlPairs(lib: UrlLib, matches: seq<string>): (r: seq<string>)
    ensures |r| == 2 * |AcceptedIndices(lib, matches)|
  {
    ParsedUrlsCount(lib, matches);
    var p := ParsedUrls(lib, matches);
    seq(2 * |p|, k requires 0 <= k < 2 * |p| =>
      if k % 2 == 0 then lib.render(Normalize(p[k / 2])) else lib.hostname(Normalize(p[k / 2]).host))
  }

  /** What the match at position `i` adds to the accepted URLs. */
  lemma ParsedUrlsStep(lib: UrlLib, matches: seq<string>, i: int)
    requires 0 <= i < |matches|
    ensures ParsedUrls(lib, matches[..i + 1]) ==
              ParsedUrls(lib, matches[..i]) + (match lib.parse(matches[i]) case Some(u) => [u] case None => [])
  {
    assert matches[..i + 1][..i] == matches[..i];
  }

  /** What the match at position `i` adds to the normalised URLs. */
  lemma NormalizedUrlsStep(lib: UrlLib, matches: seq<string>, i: int)
    requires 0 <= i < |matches|
    ensures NormalizedUrls(lib, matches[..i + 1]) == NormalizedUrls(lib, matches[..i]) +
              (match lib.parse(matches[i]) case Some(u) => [lib.render(Normalize(u))] case None => [])
  {
    ParsedUrlsStep(lib, matches, i);
  }

  /** What the match at position `i` adds to the URL pairs. */
  lemma UrlPairsStep(lib: UrlLib, matches: seq<string>, i: int)
    requires 0 <= i < |matches|
    ensures UrlPairs(lib, matches[..i + 1]) == UrlPairs(lib, matches[..i]) +
              (match lib.parse(matches[i])
               case Some(u) => [lib.render(Normalize(u)), lib.hostname(Normalize(u).host)]
               case None => [])
  {
    ParsedUrlsStep(lib, matches, i);
    var before := ParsedUrls(lib, matches[..i]);
    var after := ParsedUrls(lib, matches[..i + 1]);
    var n := |before|;
    if lib.parse(matches[i]).Some? {
      var p0 := UrlPairs(lib, matches[..i]);
      var p1 := UrlPairs(lib, matches[..i + 1]);
      forall k | 0 <= k < 2 * n
        ensures p1[k] == p0[k]
      {
        assert k / 2 < n;
      }
      var j := 2 * n;
      assert j / 2 == n && j % 2 == 0 && (j + 1) / 2 == n && (j + 1) % 2 == 1;
      assert p1 == p0 + [p1[j], p1[j + 1]];
    }
  }

  /** In the pairs, each normalised URL is followed right away by its host name. */
  lemma UrlPairsLayout(lib: UrlLib, matches: seq<string>, k: int)
    requires 0 <= k < |NormalizedUrls(lib, matches)|
    ensures UrlPairs(lib, matches)[2 * k] == NormalizedUrls(lib, matches)[k]
    ensures UrlPairs(lib, matches)[2 * k + 1] == lib.hostname(ParsedUrls(lib, matches)[k].host)
  {
    var j := 2 * k;
    assert j / 2 == k && j % 2 == 0;
    assert (j + 1) / 2 == k && (j + 1) % 2 == 1;
    var u := ParsedUrls(lib, matches)[k];
    assert Normalize(u).host == Normalize(u).(path := u.path, rawQuery := u.rawQuery).host == u.host;
  }

  /**
   Each (URL, host name) pair comes from one accepted match: the serialisation of its
   normalised parse, then the host name of that same parse.
   */
  lemma UrlPairsOrigin(lib: UrlLib, matches: seq<string>, k: int)
    requires 0 <= k < |UrlPairs(lib, matches)| && k % 2 == 0
    ensures exists i :: 0 <= i < |matches| && lib.parse(matches[i]).Some?
              && UrlPairs(lib, matches)[k] == lib.render(Normalize(lib.parse(matches[i]).value))
              && UrlPairs(lib, matches)[k + 1] == lib.hostname(lib.parse(matches[i]).value.host)
  {
    var j := k / 2;
    UrlPairsLayout(lib, matches, j);
    ParsedUrlsCount(lib, matches);
    var u := ParsedUrls(lib, matches)[j];
    var i :| 0 <= i < |matches| && lib.parse(matches[i]) == Some(u);
    assert 2 * j == k;
    assert NormalizedUrls(lib, matches)[j] == lib.render(Normalize(u));
  }
}
