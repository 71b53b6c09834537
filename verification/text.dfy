/**
 The string primitives of Go's `strings` package that the extraction engine uses:
 ASCII character classes, `ToLower`, `HasPrefix`, `HasSuffix`, and `Split` on a
 one-character separator together with its inverse `Join`.
 */
module Text {

  predicate IsUpper(c: char) { 'A' <= c <= 'Z' }

  predicate IsLowerLetter(c: char) { 'a' <= c <= 'z' }

  predicate IsLetter(c: char) { IsUpper(c) || IsLowerLetter(c) }

  predicate IsDigit(c: char) { '0' <= c <= '9' }

  predicate IsAlnum(c: char) { IsLetter(c) || IsDigit(c) }

  /** A hexadecimal digit in either case, as `[0-9a-fA-F]`. */
  predicate IsHexDigit(c: char) { IsDigit(c) || 'a' <= c <= 'f' || 'A' <= c <= 'F' }

  /** No upper-case ASCII letter occurs in `s`. */
  predicate IsLowercase(s: string) {
    forall i :: 0 <= i < |s| ==> !IsUpper(s[i])
  }

  /** `unicode.ToLower` restricted to ASCII: letters move down, all else stays. */
  function LowerChar(c: char): (d: char)
    ensures !IsUpper(d)
    ensures IsLetter(d) <==> IsLetter(c)
    ensures !IsLetter(c) ==> d == c
  {
    if IsUpper(c) then (c as int + 32) as char else c
  }

  /** `strings.ToLower` on ASCII text. */
  function Lower(s: string): (r: string)
    ensures |r| == |s|
    ensures IsLowercase(r)
    ensures forall i :: 0 <= i < |s| ==> r[i] == LowerChar(s[i])
  {
    seq(|s|, i requires 0 <= i < |s| => LowerChar(s[i]))
  }

  /** Lowering is idempotent, and fixes exactly the strings already lower-case. */
  lemma LowerFixpoint(s: string)
    ensures Lower(s) == s <==> IsLowercase(s)
    ensures Lower(Lower(s)) == Lower(s)
  {
    if IsLowercase(s) {
      assert forall i :: 0 <= i < |s| ==> Lower(s)[i] == s[i];
    }
    assert forall i :: 0 <= i < |s| ==> Lower(Lower(s))[i] == Lower(s)[i];
  }

  /** `strings.HasPrefix`. */
  predicate HasPrefix(s: string, p: string) {
    |p| <= |s| && s[..|p|] == p
  }

  /** `strings.HasSuffix`. */
  predicate HasSuffix(s: string, p: string) {
    |p| <= |s| && s[|s| - |p|..] == p
  }

  /** Joins the pieces with `sep` between consecutive ones (`strings.Join`). */
  function Join(r: seq<string>, sep: char): string
    requires |r| >= 1
  {
    if |r| == 1 then r[0] else r[0] + [sep] + Join(r[1..], sep)
  }

  /**
   `strings.Split(s, string(sep))`: the maximal `sep`-free pieces of `s` in order.
   The lemma `SplitSpec` states what the pieces are.
   */
  function Split(s: string, sep: char): (r: seq<string>)
    ensures |r| >= 1
    decreases |s|
  {
    if |s| == 0 then [""]
    else
      var rest := Split(s[1..], sep);
      if s[0] == sep then [""] + rest else [[s[0]] + rest[0]] + rest[1..]
  }

  /**
   There is one piece more than there are separators (so the empty string gives
   `[""]`), no piece holds the separator, and joining the pieces back gives `s`.
   */
  lemma SplitSpec(s: string, sep: char)
    ensures |Split(s, sep)| == multiset(s)[sep] + 1
    ensures forall i :: 0 <= i < |Split(s, sep)| ==> sep !in Split(s, sep)[i]
    ensures Join(Split(s, sep), sep) == s
  {
    SplitCount(s, sep);
    SplitSeparatorFree(s, sep);
    JoinSplit(s, sep);
  }

  lemma {:induction false} SplitCount(s: string, sep: char)
    ensures |Split(s, sep)| == multiset(s)[sep] + 1
    decreases |s|
  {
    if |s| > 0 {
      assert s == [s[0]] + s[1..];
      SplitCount(s[1..], sep);
    }
  }

  lemma {:induction false} SplitSeparatorFree(s: string, sep: char)
    ensures forall i :: 0 <= i < |Split(s, sep)| ==> sep !in Split(s, sep)[i]
    decreases |s|
  {
    if |s| > 0 {
      SplitSeparatorFree(s[1..], sep);
      var rest := Split(s[1..], sep);
      var r := Split(s, sep);
      if s[0] != sep {
        assert forall i :: 1 <= i < |r| ==> r[i] == rest[i];
      }
    }
  }

  lemma {:induction false} JoinSplit(s: string, sep: char)
    ensures Join(Split(s, sep), sep) == s
    decreases |s|
  {
    if |s| > 0 {
      JoinSplit(s[1..], sep);
      var rest := Split(s[1..], sep);
      var r := Split(s, sep);
      if s[0] == sep {
        assert r[1..] == rest;
        assert Join(r, sep) == [sep] + Join(rest, sep);
      } else {
        assert r[1..] == rest[1..];
        if |rest| == 1 {
          assert Join(r, sep) == [s[0]] + rest[0];
        } else {
          calc {
            Join(r, sep);
            ([s[0]] + rest[0]) + [sep] + Join(rest[1..], sep);
            [s[0]] + (rest[0] + [sep] + Join(rest[1..], sep));
            [s[0]] + Join(rest, sep);
          }
        }
      }
      assert s == [s[0]] + s[1..];
    }
  }

  /** Unfolding `Join` at its first piece; the tail is either empty or `sep` + the rest. */
  lemma JoinHead(r: seq<string>, sep: char)
    requires |r| >= 1
    ensures HasPrefix(Join(r, sep), r[0])
    ensures |r| == 1 ==> Join(r, sep) == r[0]
    ensures |r| > 1 ==> Join(r, sep) == r[0] + [sep] + Join(r[1..], sep)
  {
  }

  /** Every character of a joined string is the separator or comes from a piece. */
  lemma {:induction false} JoinChars(r: seq<string>, sep: char, c: char)
    requires |r| >= 1
    requires c in Join(r, sep)
    ensures c == sep || exists i :: 0 <= i < |r| && c in r[i]
    decreases |r|
  {
    if |r| > 1 {
      if c in r[0] || c == sep {
      } else {
        assert c in Join(r[1..], sep);
        JoinChars(r[1..], sep, c);
        var i :| 0 <= i < |r[1..]| && c in r[1..][i];
        assert c in r[i + 1];
      }
    }
  }

  /** Splitting a `sep`-free piece followed by `sep` peels that piece off. */
  lemma {:induction false} SplitPiece(a: string, t: string, sep: char)
    requires sep !in a
    ensures Split(a + [sep] + t, sep) == [a] + Split(t, sep)
    decreases |a|
  {
    var s := a + [sep] + t;
    if |a| == 0 {
      assert s[1..] == t;
    } else {
      assert s[1..] == a[1..] + [sep] + t;
      SplitPiece(a[1..], t, sep);
      assert [a[0]] + a[1..] == a;
    }
  }

  /** A `sep`-free string is a single piece. */
  lemma {:induction false} SplitSingle(a: string, sep: char)
    requires sep !in a
    ensures Split(a, sep) == [a]
    decreases |a|
  {
    if |a| > 0 {
      SplitSingle(a[1..], sep);
      assert [a[0]] + a[1..] == a;
    }
  }

  /** `Split` undoes `Join` on `sep`-free pieces: together with `Split`'s own contract, a bijection. */
  lemma {:induction false} SplitJoin(r: seq<string>, sep: char)
    requires |r| >= 1
    requires forall i :: 0 <= i < |r| ==> sep !in r[i]
    ensures Split(Join(r, sep), sep) == r
    decreases |r|
  {
    if |r| == 1 {
      SplitSingle(r[0], sep);
    } else {
      SplitJoin(r[1..], sep);
      SplitPiece(r[0], Join(r[1..], sep), sep);
      assert [r[0]] + r[1..] == r;
    }
  }

  /** A string ending in the separator splits into a list ending in the empty piece. */
  lemma {:induction false} SplitTrailingSeparator(s: string, sep: char)
    requires |s| > 0 && s[|s| - 1] == sep
    ensures Split(s, sep)[|Split(s, sep)| - 1] == ""
    decreases |s|
  {
    if |s| > 1 {
      SplitTrailingSeparator(s[1..], sep);
      assert s == [s[0]] + s[1..];
    }
  }

  /** Every piece lowered. */
  function LowerAll(r: seq<string>): (q: seq<string>)
    ensures |q| == |r|
    ensures forall i :: 0 <= i < |r| ==> q[i] == Lower(r[i])
  {
    seq(|r|, i requires 0 <= i < |r| => Lower(r[i]))
  }

  /** Lowering before splitting on a non-letter gives the lowered pieces. */
  lemma {:induction false} SplitLower(s: string, sep: char)
    requires !IsLetter(sep)
    ensures Split(Lower(s), sep) == LowerAll(Split(s, sep))
    decreases |s|
  {
    if |s| > 0 {
      var rest := Split(s[1..], sep);
      SplitLower(s[1..], sep);
      assert Lower(s) == [LowerChar(s[0])] + Lower(s[1..]);
      assert Lower(s)[1..] == Lower(s[1..]);
      assert s == [s[0]] + s[1..];
      if s[0] != sep {
        assert LowerChar(s[0]) != sep;
        assert Lower([s[0]] + rest[0]) == [LowerChar(s[0])] + Lower(rest[0]);
      }
    }
  }
}
