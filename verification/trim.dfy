/**
 `strings.Trim(s, cutset)`: strip every leading and every trailing character that
 belongs to the cut set, and nothing else.
 */
module Trimming {

  /** How many characters at the front of `s` belong to `cut`. */
  function LeadingCut(s: string, cut: set<char>): (n: nat)
    ensures n <= |s|
    ensures forall k :: 0 <= k < n ==> s[k] in cut
    ensures n < |s| ==> s[n] !in cut
    decreases |s|
  {
    if |s| > 0 && s[0] in cut then 1 + LeadingCut(s[1..], cut) else 0
  }

  /** How many characters at the back of `s` belong to `cut`. */
  function TrailingCut(s: string, cut: set<char>): (n: nat)
    ensures n <= |s|
    ensures forall k :: |s| - n <= k < |s| ==> s[k] in cut
    ensures n < |s| ==> s[|s| - n - 1] !in cut
    decreases |s|
  {
    if |s| > 0 && s[|s| - 1] in cut then 1 + TrailingCut(s[..|s| - 1], cut) else 0
  }

  /** `strings.TrimLeft`. */
  function TrimLeft(s: string, cut: set<char>): string {
    s[LeadingCut(s, cut)..]
  }

  /** `strings.TrimRight`. */
  function TrimRight(s: string, cut: set<char>): string {
    s[..|s| - TrailingCut(s, cut)]
  }

  /** `strings.Trim`: left trim, then right trim. */
  function Trim(s: string, cut: set<char>): (r: string)
    ensures |r| <= |s|
    ensures |r| > 0 ==> r[0] !in cut && r[|r| - 1] !in cut
  {
    TrimRight(TrimLeft(s, cut), cut)
  }

  /**
   The result is a slice of `s` and what was removed on either side consists of
   cut characters only; with the boundary fact of `Trim` this pins the result down.
   */
  lemma TrimSlice(s: string, cut: set<char>)
    ensures exists i, j ::
              && 0 <= i <= j <= |s| && Trim(s, cut) == s[i..j]
              && (forall k :: 0 <= k < i ==> s[k] in cut)
              && (forall k :: j <= k < |s| ==> s[k] in cut)
  {
    var i := LeadingCut(s, cut);
    var u := s[i..];
    var j := i + |u| - TrailingCut(u, cut);
    assert Trim(s, cut) == s[i..j];
    assert forall k :: j <= k < |s| ==> s[k] == u[k - i];
  }

  /** `Trim` leaves `s` alone exactly when neither end of `s` is a cut character. */
  lemma TrimFixpoint(s: string, cut: set<char>)
    ensures Trim(s, cut) == s <==> (|s| == 0 || (s[0] !in cut && s[|s| - 1] !in cut))
  {
    if |s| > 0 && s[0] !in cut && s[|s| - 1] !in cut {
      assert LeadingCut(s, cut) == 0;
      assert TrailingCut(s, cut) == 0;
    }
  }

  /** Trimming twice is trimming once. */
  lemma TrimIdempotent(s: string, cut: set<char>)
    ensures Trim(Trim(s, cut), cut) == Trim(s, cut)
  {
    TrimFixpoint(Trim(s, cut), cut);
  }
}
