/**
 The TLD filter applied to domain matches, identical in `extractDomains` and
 `getFileDomains`: lower-case each match; with no TLD list keep it once; otherwise
 emit it once for every list entry `t` it ends `"." + t` with. The inner loop's
 `continue` only moves on to the next entry, so a match is not emitted just once.
 */
module TldFilter {
  import opened Text
  import opened Shapes

  /** `strings.HasSuffix(domain, "." + tld)`. */
  predicate EndsWithTld(domain: string, tld: string) {
    HasSuffix(domain, "." + tld)
  }

  /** The inner loop over the TLD list for one lower-cased match. */
  function TldHits(domain: string, tlds: seq<string>): (r: seq<string>)
    ensures forall k :: 0 <= k < |r| ==> r[k] == domain
    decreases |tlds|
  {
    if |tlds| == 0 then []
    else
      var n := |tlds| - 1;
      TldHits(domain, tlds[..n]) + (if EndsWithTld(domain, tlds[n]) then [domain] else [])
  }

  /** The positions of the list entries the domain ends with. */
  ghost function HitIndices(domain: string, tlds: seq<string>): set<int> {
    set i | 0 <= i < |tlds| && EndsWithTld(domain, tlds[i])
  }

  /** The inner loop emits the domain once per matching entry, counting repeated entries. */
  lemma {:induction false} TldHitsCount(domain: string, tlds: seq<string>)
    ensures TldHits(domain, tlds) == seq(|HitIndices(domain, tlds)|, _ => domain)
    decreases |tlds|
  {
    if |tlds| > 0 {
      var n := |tlds| - 1;
      TldHitsCount(domain, tlds[..n]);
      var before := HitIndices(domain, tlds[..n]);
      var extra: set<int> := if EndsWithTld(domain, tlds[n]) then {n} else {};
      assert HitIndices(domain, tlds) == before + extra by {
        forall i | 0 <= i < n
          ensures tlds[..n][i] == tlds[i]
        {
        }
      }
      assert n !in before;
    }
  }

  /** A match is dropped exactly when no entry is a suffix of it. */
  lemma TldHitsNone(domain: string, tlds: seq<string>)
    ensures TldHits(domain, tlds) == [] <==> forall i :: 0 <= i < |tlds| ==> !EndsWithTld(domain, tlds[i])
  {
    TldHitsCount(domain, tlds);
    if i :| 0 <= i < |tlds| && EndsWithTld(domain, tlds[i]) {
      assert i in HitIndices(domain, tlds);
    }
  }

  /** An entry listed twice that the domain ends with yields at least two outputs. */
  lemma DuplicateTldsDuplicate(domain: string, tlds: seq<string>, i: int, j: int)
    requires 0 <= i < |tlds| && 0 <= j < |tlds| && i != j
    requires tlds[i] == tlds[j] && EndsWithTld(domain, tlds[i])
    ensures |TldHits(domain, tlds)| >= 2
  {
    TldHitsCount(domain, tlds);
    assert {i, j} <= HitIndices(domain, tlds);
    assert |{i, j}| == 2;
    SubsetCardinality({i, j}, HitIndices(domain, tlds));
  }

  lemma SubsetCardinality(a: set<int>, b: set<int>)
    requires a <= b
    ensures |a| <= |b|
  {
    assert b == a + (b - a);
  }

  /** What one lower-cased match contributes. */
  function Keep(domain: string, tlds: seq<string>): seq<string> {
    if |tlds| == 0 then [domain] else TldHits(domain, tlds)
  }

  /** The strings one match contributes are that match, when kept. */
  lemma KeepMembers(domain: string, tlds: seq<string>, x: string)
    ensures x in Keep(domain, tlds) <==>
              x == domain && (|tlds| == 0 || exists j :: 0 <= j < |tlds| && EndsWithTld(x, tlds[j]))
  {
    TldHitsNone(domain, tlds);
    if |tlds| > 0 && x == domain && TldHits(domain, tlds) != [] {
      assert TldHits(domain, tlds)[0] == domain;
    }
  }

  /** The outer loop: every match's contribution, in match order. */
  function FilterDomains(tlds: seq<string>, matches: seq<string>): (r: seq<string>)
    ensures forall k :: 0 <= k < |r| ==> IsLowercase(r[k])
    decreases |matches|
  {
    if |matches| == 0 then []
    else
      var n := |matches| - 1;
      FilterDomains(tlds, matches[..n]) + Keep(Lower(matches[n]), tlds)
  }

  /**
   One more match appends its lower-cased form once with the filter off, and once per
   matching TLD entry with it on; nothing is deduplicated.
   */
  lemma FilterAppend(tlds: seq<string>, matches: seq<string>, x: string)
    ensures FilterDomains(tlds, matches + [x]) == FilterDomains(tlds, matches) +
              (if |tlds| == 0 then [Lower(x)] else seq(|HitIndices(Lower(x), tlds)|, _ => Lower(x)))
  {
    assert (matches + [x])[..|matches|] == matches;
    TldHitsCount(Lower(x), tlds);
  }

  /** With an empty TLD list every match is kept once, lower-cased, in order. */
  lemma {:induction false} FilterDisabled(matches: seq<string>)
    ensures FilterDomains([], matches) == LowerAll(matches)
    decreases |matches|
  {
    if |matches| > 0 {
      var n := |matches| - 1;
      FilterDisabled(matches[..n]);
      var l := LowerAll(matches);
      var p := LowerAll(matches[..n]);
      assert forall i :: 0 <= i < n ==> l[i] == p[i];
      assert l == p + [Lower(matches[n])];
    }
  }

  /**
   A string is emitted exactly when it is a lower-cased match and the filter is off
   or some entry is its suffix.
   */
  lemma {:induction false} FilterMembers(tlds: seq<string>, matches: seq<string>, x: string)
    ensures x in FilterDomains(tlds, matches) <==>
              exists i :: 0 <= i < |matches| && x == Lower(matches[i])
                && (|tlds| == 0 || exists j :: 0 <= j < |tlds| && EndsWithTld(x, tlds[j]))
    decreases |matches|
  {
    if |matches| > 0 {
      var n := |matches| - 1;
      var init := matches[..n];
      FilterMembers(tlds, init, x);
      var d := Lower(matches[n]);
      assert FilterDomains(tlds, matches) == FilterDomains(tlds, init) + Keep(d, tlds);
      assert forall i :: 0 <= i < n ==> init[i] == matches[i];
      KeepMembers(d, tlds, x);
    }
  }

  /**
   With shaped matches every output is a lower-case domain match: a label, a dot,
   and 2 to 6 letters.
   */
  lemma FilterShape(tlds: seq<string>, matches: seq<string>)
    requires forall i :: 0 <= i < |matches| ==> IsDomain(matches[i])
    ensures forall k :: 0 <= k < |FilterDomains(tlds, matches)| ==>
              && IsLowercase(FilterDomains(tlds, matches)[k])
              && IsDomain(FilterDomains(tlds, matches)[k])
  {
    var r := FilterDomains(tlds, matches);
    forall k | 0 <= k < |r|
      ensures IsDomain(r[k])
    {
      FilterMembers(tlds, matches, r[k]);
      var i :| 0 <= i < |matches| && r[k] == Lower(matches[i]);
      DomainLower(matches[i]);
    }
  }

  /** The loops of `extractDomains` (and `getFileDomains`) as written. */
  method CollectDomains(tlds: seq<string>, matches: seq<string>) returns (domains: seq<string>)
    ensures domains == FilterDomains(tlds, matches)
  {
    domains := [];
    for m := 0 to |matches|
      invariant domains == FilterDomains(tlds, matches[..m])
    {
      var domain := Lower(matches[m]);
      assert matches[..m + 1][..m] == matches[..m];
      if |tlds| == 0 {
        domains := domains + [domain];
        continue;
      }
      ghost var before := domains;
      for t := 0 to |tlds|
        invariant domains == before + TldHits(domain, tlds[..t])
      {
        assert tlds[..t + 1][..t] == tlds[..t];
        if EndsWithTld(domain, tlds[t]) {
          domains := domains + [domain];
          continue;
        }
      }
      assert tlds[..|tlds|] == tlds;
    }
    assert matches[..|matches|] == matches;
  }
}
